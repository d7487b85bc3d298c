/**
 * Merging the counter back onto the table (`df.merge(failures[...],
 * on=["timestamp", "user"], how="left")` followed by `fillna(0)`): a
 * left join keyed by the VALUE pair (timestamp, user).  Left rows keep
 * their order; a left row with several matching counter rows appears once
 * per match, in the counter table's order; a left row without a match
 * appears once with 0.
 */
module Join {
  import opened Seqs
  import opened ScalarFeatures
  import opened Ordering
  import opened Events

  /** A row of the counter table, with the row label it came from. */
  datatype FailureEntry = FailureEntry(row: nat, time: int, user: string, failedLogins: int)

  /** The counter table built from the failure rows and their counts. */
  function FailureTable(failures: seq<Row>, counts: seq<int>): (table: seq<FailureEntry>)
    requires |counts| == |failures|
    ensures |table| == |failures|
    ensures forall k :: 0 <= k < |failures| ==>
      table[k] == FailureEntry(failures[k].event.row, failures[k].event.time, failures[k].event.user, counts[k])
  {
    seq(|failures|, k requires 0 <= k < |failures| =>
      FailureEntry(failures[k].event.row, failures[k].event.time, failures[k].event.user, counts[k]))
  }

  /** A row of the merged table. */
  datatype JoinedRow = JoinedRow(row: Row, failedLogins: int)

  /** The entry's key (timestamp, user) equals the row's. */
  predicate KeyMatches(e: FailureEntry, r: Row) {
    e.time == r.event.time && e.user == r.event.user
  }

  /** Number of entries whose key matches row `r`. */
  function MatchCount(right: seq<FailureEntry>, r: Row): nat {
    Count(right, e => KeyMatches(e, r))
  }

  /** Positions of the entries whose key matches row `r`: all of them, ascending. */
  function MatchPositions(right: seq<FailureEntry>, r: Row): (ps: seq<nat>)
    ensures |ps| == MatchCount(right, r)
    ensures forall j :: 0 <= j < |ps| ==> ps[j] < |right| && KeyMatches(right[ps[j]], r)
    ensures forall j, j' :: 0 <= j < j' < |ps| ==> ps[j] < ps[j']
    ensures forall k :: 0 <= k < |right| && KeyMatches(right[k], r) ==> k in ps
  {
    Positions(right, e => KeyMatches(e, r))
  }

  /**
   * The counts of the entries whose key matches row `r`, in counter-table
   * order: count i is that of the i-th matching entry.
   */
  function MatchingCounts(right: seq<FailureEntry>, r: Row): (cs: seq<int>)
    ensures |cs| == MatchCount(right, r)
    ensures forall i :: 0 <= i < |cs| ==> cs[i] == right[MatchPositions(right, r)[i]].failedLogins
    ensures forall i :: 0 <= i < |cs| ==> exists k :: 0 <= k < |right| && KeyMatches(right[k], r) && right[k].failedLogins == cs[i]
    ensures forall k :: 0 <= k < |right| && KeyMatches(right[k], r) ==> right[k].failedLogins in cs
  {
    var ps := MatchPositions(right, r);
    var cs := seq(|ps|, i requires 0 <= i < |ps| => right[ps[i]].failedLogins);
    assert forall i :: 0 <= i < |cs| ==> KeyMatches(right[ps[i]], r) && right[ps[i]].failedLogins == cs[i];
    cs
  }

  /** The merged rows of one left row: one per match, or one with the fill value 0. */
  function JoinRow(r: Row, right: seq<FailureEntry>): (out: seq<JoinedRow>)
    ensures |out| >= 1
  {
    var cs := MatchingCounts(right, r);
    if cs == [] then [JoinedRow(r, 0)]
    else seq(|cs|, i requires 0 <= i < |cs| => JoinedRow(r, cs[i]))
  }

  /** Left join of the table with the counter table on (timestamp, user). */
  function LeftJoin(left: seq<Row>, right: seq<FailureEntry>): (out: seq<JoinedRow>)
    ensures |out| >= |left|
  {
    if left == [] then []
    else LeftJoin(left[..|left| - 1], right) + JoinRow(left[|left| - 1], right)
  }

  // ---------------------------------------------------------------------
  // Properties of the merge

  /**
   * What one left row contributes: with no match, one row carrying 0; with
   * k matches, k rows, row i carrying the count of the i-th matching entry.
   */
  lemma JoinRowContents(r: Row, right: seq<FailureEntry>)
    ensures var n := MatchCount(right, r);
      |JoinRow(r, right)| == (if n == 0 then 1 else n)
    ensures forall i :: 0 <= i < |JoinRow(r, right)| ==> JoinRow(r, right)[i].row == r
    ensures MatchCount(right, r) == 0 ==> JoinRow(r, right) == [JoinedRow(r, 0)]
    ensures MatchCount(right, r) > 0 ==> forall i :: 0 <= i < |JoinRow(r, right)| ==>
      JoinRow(r, right)[i].failedLogins == right[MatchPositions(right, r)[i]].failedLogins
  {
    var cs, ps := MatchingCounts(right, r), MatchPositions(right, r);
    forall i | 0 <= i < |JoinRow(r, right)| && MatchCount(right, r) > 0
      ensures JoinRow(r, right)[i].failedLogins == right[ps[i]].failedLogins
    {
      assert JoinRow(r, right)[i].failedLogins == cs[i];
    }
  }

  /** The merge of a prefix of the left table is a prefix of the merge. */
  lemma {:induction false} LeftJoinPrefix(left: seq<Row>, right: seq<FailureEntry>, i: nat)
    requires i <= |left|
    ensures |LeftJoin(left[..i], right)| <= |LeftJoin(left, right)|
    ensures LeftJoin(left, right)[..|LeftJoin(left[..i], right)|] == LeftJoin(left[..i], right)
    decreases |left| - i
  {
    if i == |left| {
      assert left[..i] == left;
    } else {
      var left' := left[..|left| - 1];
      assert left[..i] == left'[..i];
      LeftJoinPrefix(left', right, i);
    }
  }

  /**
   * The rows contributed by left row `i` sit together, after those of the
   * rows before it: the merge preserves the order of the left table.
   */
  lemma JoinBlock(left: seq<Row>, right: seq<FailureEntry>, i: nat)
    requires i < |left|
    ensures var lo, hi := |LeftJoin(left[..i], right)|, |LeftJoin(left[..i + 1], right)|;
      lo < hi <= |LeftJoin(left, right)| && LeftJoin(left, right)[lo..hi] == JoinRow(left[i], right)
  {
    var prefix := left[..i + 1];
    assert prefix[..|prefix| - 1] == left[..i];
    LeftJoinPrefix(left, right, i + 1);
  }

  /** Every left row appears in the merged table: the first row of its block is that row. */
  lemma {:induction false} LeftJoinCovers(left: seq<Row>, right: seq<FailureEntry>, k: nat)
    requires k < |left|
    ensures exists j :: 0 <= j < |LeftJoin(left, right)| && LeftJoin(left, right)[j].row == left[k]
  {
    JoinBlock(left, right, k);
    JoinRowContents(left[k], right);
    var lo := |LeftJoin(left[..k], right)|;
    assert LeftJoin(left, right)[lo] == JoinRow(left[k], right)[0];
  }

  /** Every merged row is a left row with either 0 and no match, or a count of a matching entry. */
  lemma {:induction false} JoinedRowOrigin(left: seq<Row>, right: seq<FailureEntry>, j: nat)
    requires j < |LeftJoin(left, right)|
    ensures var out := LeftJoin(left, right)[j];
      && out.row in left
      && (MatchCount(right, out.row) == 0 ==> out.failedLogins == 0)
      && (MatchCount(right, out.row) > 0 ==>
            exists k :: 0 <= k < |right| && KeyMatches(right[k], out.row) && right[k].failedLogins == out.failedLogins)
    decreases |left|
  {
    var left', r := left[..|left| - 1], left[|left| - 1];
    var head := LeftJoin(left', right);
    JoinRowContents(r, right);
    if j < |head| {
      JoinedRowOrigin(left', right, j);
    } else {
    }
  }

  predicate JoinedSortedByTime(out: seq<JoinedRow>) {
    forall i, j :: 0 <= i < j < |out| ==> out[i].row.event.time <= out[j].row.event.time
  }

  /** Merging a time-sorted table keeps it sorted by time. */
  lemma {:induction false} LeftJoinSorted(left: seq<Row>, right: seq<FailureEntry>)
    requires SortedByTime(left)
    ensures JoinedSortedByTime(LeftJoin(left, right))
    decreases |left|
  {
    if left != [] {
      var left', r := left[..|left| - 1], left[|left| - 1];
      LeftJoinSorted(left', right);
      var head, tail := LeftJoin(left', right), JoinRow(r, right);
      JoinRowContents(r, right);
      forall j | 0 <= j < |head| ensures head[j].row.event.time <= r.event.time {
        JoinedRowOrigin(left', right, j);
      }
    }
  }

  /** No two entries share the key of a left row. */
  predicate AtMostOneMatch(left: seq<Row>, right: seq<FailureEntry>) {
    forall i :: 0 <= i < |left| ==> MatchCount(right, left[i]) <= 1
  }

  lemma AtMostOneMatchPrefix(left: seq<Row>, right: seq<FailureEntry>)
    requires |left| > 0 && AtMostOneMatch(left, right)
    ensures AtMostOneMatch(left[..|left| - 1], right)
  {
    var left' := left[..|left| - 1];
    forall i | 0 <= i < |left'| ensures MatchCount(right, left'[i]) <= 1 {
      assert left'[i] == left[i];
    }
  }

  /** A left row with at most one match contributes exactly one merged row. */
  lemma JoinRowSingle(r: Row, right: seq<FailureEntry>)
    requires MatchCount(right, r) <= 1
    ensures |JoinRow(r, right)| == 1
  {
    assert |MatchingCounts(right, r)| <= 1;
  }

  /**
   * With at most one match per left row the merge neither adds nor drops
   * rows: row i of the result is left row i with its match's count or 0.
   */
  lemma {:induction false} LeftJoinOneToOne(left: seq<Row>, right: seq<FailureEntry>)
    requires AtMostOneMatch(left, right)
    ensures |LeftJoin(left, right)| == |left|
    ensures forall i :: 0 <= i < |left| ==> LeftJoin(left, right)[i] == JoinRow(left[i], right)[0]
    decreases |left|
  {
    if left != [] {
      var left', r := left[..|left| - 1], left[|left| - 1];
      AtMostOneMatchPrefix(left, right);
      LeftJoinOneToOne(left', right);
      JoinRowSingle(r, right);
      var head, tail := LeftJoin(left', right), JoinRow(r, right);
      assert LeftJoin(left, right) == head + tail;
      forall i | 0 <= i < |left| ensures LeftJoin(left, right)[i] == JoinRow(left[i], right)[0] {
        if i < |left'| {
          assert left'[i] == left[i];
          assert (head + tail)[i] == head[i];
        } else {
          assert (head + tail)[i] == tail[0];
        }
      }
    }
  }

  /**
   * A row that shares its key with exactly one entry, whether or not the
   * row is itself that entry's failure, receives that entry's count.
   */
  lemma SharedKeyCount(r: Row, right: seq<FailureEntry>, k: nat)
    requires k < |right| && KeyMatches(right[k], r) && MatchCount(right, r) == 1
    ensures JoinRow(r, right) == [JoinedRow(r, right[k].failedLogins)]
  {
    var cs := MatchingCounts(right, r);
    assert right[k].failedLogins in cs;
    assert cs == [cs[0]];
  }

  // ---------------------------------------------------------------------
  // Join by row label: each failure's count attached to the row it was
  // computed for, kept for comparison with the join by key

  /** The count of the first entry carrying row label `rowLabel`, or 0 if none does. */
  function LabelledCount(right: seq<FailureEntry>, rowLabel: nat): (c: int)
    ensures (forall k :: 0 <= k < |right| ==> right[k].row != rowLabel) ==> c == 0
    ensures (exists k :: 0 <= k < |right| && right[k].row == rowLabel) ==>
      exists k :: 0 <= k < |right| && right[k].row == rowLabel && right[k].failedLogins == c
  {
    if right == [] then 0
    else if right[0].row == rowLabel then right[0].failedLogins
    else
      var c := LabelledCount(right[1..], rowLabel);
      assert forall k :: 0 <= k < |right| - 1 ==> right[1..][k] == right[k + 1];
      c
  }

  /**
   * Attaching each failure's count to the row it was computed for: one
   * output row per input row, carrying its own count or 0.
   */
  function RowJoin(left: seq<Row>, right: seq<FailureEntry>): (out: seq<JoinedRow>)
    ensures |out| == |left|
    ensures forall i :: 0 <= i < |left| ==> out[i] == JoinedRow(left[i], LabelledCount(right, left[i].event.row))
  {
    seq(|left|, i requires 0 <= i < |left| => JoinedRow(left[i], LabelledCount(right, left[i].event.row)))
  }

  /** Every entry matches by key exactly the left rows it matches by label. */
  predicate KeysIdentifyRows(left: seq<Row>, right: seq<FailureEntry>) {
    forall i, k :: 0 <= i < |left| && 0 <= k < |right| ==>
      (KeyMatches(right[k], left[i]) <==> right[k].row == left[i].event.row)
  }

  /** A row whose key matches exactly the entries carrying its label, at most one, gets the same value from both joins. */
  lemma {:induction false} RowAgrees(r: Row, right: seq<FailureEntry>)
    requires MatchCount(right, r) <= 1
    requires forall k :: 0 <= k < |right| ==> (KeyMatches(right[k], r) <==> right[k].row == r.event.row)
    ensures JoinRow(r, right) == [JoinedRow(r, LabelledCount(right, r.event.row))]
  {
    var ps := MatchPositions(right, r);
    if |ps| == 0 {
      RowAgreesUnmatched(r, right);
    } else {
      RowAgreesMatched(r, right, ps[0]);
    }
  }

  /** With no entry matching, both joins give the fill value 0. */
  lemma {:induction false} RowAgreesUnmatched(r: Row, right: seq<FailureEntry>)
    requires MatchCount(right, r) == 0
    requires forall k :: 0 <= k < |right| ==> (KeyMatches(right[k], r) <==> right[k].row == r.event.row)
    ensures JoinRow(r, right) == [JoinedRow(r, LabelledCount(right, r.event.row))]
  {
    var ps := MatchPositions(right, r);
    JoinRowContents(r, right);
    assert |ps| == 0;
    assert forall k :: 0 <= k < |right| ==> right[k].row != r.event.row;
  }

  /** With entry `k` the only match, both joins give its count. */
  lemma {:induction false} RowAgreesMatched(r: Row, right: seq<FailureEntry>, k: nat)
    requires k < |right| && KeyMatches(right[k], r) && MatchCount(right, r) == 1
    requires forall k :: 0 <= k < |right| ==> (KeyMatches(right[k], r) <==> right[k].row == r.event.row)
    ensures JoinRow(r, right) == [JoinedRow(r, LabelledCount(right, r.event.row))]
  {
    SharedKeyCount(r, right, k);
    var ps := MatchPositions(right, r);
    assert ps == [ps[0]];
    assert forall k' :: 0 <= k' < |right| && KeyMatches(right[k'], r) ==> k' == ps[0];
  }

  /** When keys identify rows and no key is shared, the two joins coincide. */
  lemma RowJoinAgrees(left: seq<Row>, right: seq<FailureEntry>)
    requires AtMostOneMatch(left, right) && KeysIdentifyRows(left, right)
    ensures LeftJoin(left, right) == RowJoin(left, right)
  {
    LeftJoinOneToOne(left, right);
    forall i | 0 <= i < |left| ensures LeftJoin(left, right)[i] == RowJoin(left, right)[i] {
      RowAgrees(left[i], right);
    }
  }

  /**
   * The two joins differ: failures at t = 0 and t = 1000 by one user, and a
   * file access by the same user at t = 1000.  Merged by key, the file
   * access picks up the second failure's count 1; merged by label it keeps 0.
   */
  lemma KeyJoinBorrowsCount()
    ensures var access := Row(Event(2, 1000, "u", "10.0.0.1", "file_access", "/data"), 0, 0, 1, 0, false);
      var right := [FailureEntry(0, 0, "u", 0), FailureEntry(1, 1000, "u", 1)];
      && LeftJoin([access], right) == [JoinedRow(access, 1)]
      && RowJoin([access], right) == [JoinedRow(access, 0)]
  {
    var access := Row(Event(2, 1000, "u", "10.0.0.1", "file_access", "/data"), 0, 0, 1, 0, false);
    var right := [FailureEntry(0, 0, "u", 0), FailureEntry(1, 1000, "u", 1)];
    assert right[..1][..0] == [];
    assert MatchCount(right[..1], access) == 0;
    SharedKeyCount(access, right, 1);
  }
}
