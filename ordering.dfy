/**
 * Re-sorting the frame by timestamp (`sort_values(by="timestamp")`).
 * The model sorts stably by insertion; see README for tie order.
 */
module Ordering {
  import opened ScalarFeatures

  predicate SortedByTime(rows: seq<Row>) {
    forall i, j :: 0 <= i < j < |rows| ==> rows[i].event.time <= rows[j].event.time
  }

  /** Insert `x` into a time-sorted sequence, after every row with time at most its own. */
  function Insert(s: seq<Row>, x: Row): (r: seq<Row>)
    requires SortedByTime(s)
    ensures SortedByTime(r)
    ensures multiset(r) == multiset(s) + multiset{x}
    ensures |r| == |s| + 1
  {
    if s == [] || s[|s| - 1].event.time <= x.event.time then s + [x]
    else
      var s', last := s[..|s| - 1], s[|s| - 1];
      assert s == s' + [last];
      var r' := Insert(s', x);
      assert forall k :: 0 <= k < |r'| ==> r'[k].event.time <= last.event.time by {
        forall k | 0 <= k < |r'| ensures r'[k].event.time <= last.event.time {
          assert r'[k] in multiset(r');
          if r'[k] != x {
            assert r'[k] in multiset(s');
            var m :| 0 <= m < |s'| && s'[m] == r'[k];
            assert s[m] == r'[k];
          }
        }
      }
      r' + [last]
  }

  /** The rows in ascending timestamp order, as a permutation of the input. */
  function SortByTime(rows: seq<Row>): (r: seq<Row>)
    ensures SortedByTime(r)
    ensures multiset(r) == multiset(rows)
    ensures |r| == |rows|
  {
    if rows == [] then []
    else
      var rows' := rows[..|rows| - 1];
      assert rows == rows' + [rows[|rows| - 1]];
      Insert(SortByTime(rows'), rows[|rows| - 1])
  }
}
