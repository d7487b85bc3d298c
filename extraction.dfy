/**
 * The whole feature extraction over a batch of raw audit events: validate
 * every timestamp, derive the scalar columns, sort by time, count failed
 * logins per user in the trailing hour, merge the counts back by
 * (timestamp, user), add the population counts and project onto the eight
 * feature columns.
 */
module Extraction {
  import opened Results
  import opened Seqs
  import opened Calendar
  import opened Timestamps
  import opened Events
  import opened ScalarFeatures
  import opened Ordering
  import opened FailureWindow
  import opened Join
  import opened Population

  /** The table after derivation and sorting (`df.sort_values(by="timestamp")`). */
  function SortedRows(events: seq<Event>): (rows: seq<Row>)
    ensures |rows| == |events|
  {
    SortByTime(Derive(events))
  }

  /** The counter table of the failure rows of `rows`. */
  function CounterTable(rows: seq<Row>): (right: seq<FailureEntry>)
    ensures |right| == |FailuresOf(rows)|
  {
    var failures := FailuresOf(rows);
    FailureTable(failures, FailureCounts(failures))
  }

  /** The merged table of a validated batch. */
  function Table(events: seq<Event>): (table: seq<JoinedRow>)
    ensures |table| >= |events|
  {
    var rows := SortedRows(events);
    LeftJoin(rows, CounterTable(rows))
  }

  /** Feature extraction: the ISO 8601 error, or one feature vector per merged row. */
  function Extract(raws: seq<RawEvent>): (r: Result<seq<FeatureVector>, Error>)
    ensures r.Failure? <==> exists i :: 0 <= i < |raws| && ParseTimestamp(raws[i].timestamp).None?
    ensures r.Failure? ==> r.error == ValueError(InvalidTimestampMessage)
    ensures r.Success? ==> |r.value| >= |raws|
  {
    match Normalize(raws)
    case Failure(e) => Failure(e)
    case Success(events) => Success(Project(Table(events)))
  }

  /** The extraction as the program runs it, with the counter column filled in place. */
  method ExtractFeatures(raws: seq<RawEvent>) returns (r: Result<seq<FeatureVector>, Error>)
    ensures r == Extract(raws)
  {
    var validated := Normalize(raws);
    if validated.Failure? {
      return Failure(validated.error);
    }
    var rows := SortByTime(Derive(validated.value));
    var failures := FailuresOf(rows);
    var counts := CountFailures(failures);
    var table := LeftJoin(rows, FailureTable(failures, counts));
    r := Success(Project(table));
  }

  // ---------------------------------------------------------------------
  // The failed-login column in terms of the input events

  predicate FailureAt(e: Event, u: string, t: int) {
    e.eventType == LoginFailure && e.user == u && e.time == t
  }

  predicate FailureInWindow(e: Event, u: string, t: int) {
    e.eventType == LoginFailure && e.user == u && InWindow(e.time, t)
  }

  /** The batch holds a login failure by `u` at exactly `t`. */
  predicate HasFailureAt(events: seq<Event>, u: string, t: int) {
    exists i :: 0 <= i < |events| && FailureAt(events[i], u, t)
  }

  /** Number of `u`'s login failures in the batch at a time in [t - 1 hour, t). */
  function WindowFailures(events: seq<Event>, u: string, t: int): nat {
    Count(events, e => FailureInWindow(e, u, t))
  }

  /** Counting, among the failure rows, those by `u` in the window ending at `t`, is counting such failures in the batch. */
  lemma WindowChain(events: seq<Event>, u: string, t: int)
    ensures Count(FailuresOf(SortedRows(events)), r => SameUserInWindow(r, u, t)) == WindowFailures(events, u, t)
  {
    var derived := Derive(events);
    var rows := SortByTime(derived);
    CountFilter(rows, IsFailure, r => SameUserInWindow(r, u, t), (r: Row) => FailureInWindow(r.event, u, t));
    CountPermutation(rows, derived, (r: Row) => FailureInWindow(r.event, u, t));
    CountCorrespondence(derived, events, (r: Row) => FailureInWindow(r.event, u, t), e => FailureInWindow(e, u, t));
  }

  /** Counting the counter-table entries with key (t, u) is counting the batch's failures at t by u. */
  lemma KeyChain(events: seq<Event>, r: Row)
    ensures var u, t := r.event.user, r.event.time;
      MatchCount(CounterTable(SortedRows(events)), r) == Count(events, e => FailureAt(e, u, t))
  {
    var u, t := r.event.user, r.event.time;
    var derived := Derive(events);
    var rows := SortByTime(derived);
    var failures := FailuresOf(rows);
    var right := CounterTable(rows);
    CountCorrespondence(right, failures, e => KeyMatches(e, r), (x: Row) => x.event.user == u && x.event.time == t);
    CountFilter(rows, IsFailure, (x: Row) => x.event.user == u && x.event.time == t, (x: Row) => FailureAt(x.event, u, t));
    CountPermutation(rows, derived, (x: Row) => FailureAt(x.event, u, t));
    CountCorrespondence(derived, events, (x: Row) => FailureAt(x.event, u, t), e => FailureAt(e, u, t));
  }

  /**
   * Every merged row carries, as its failed-login count, the number of its
   * user's failures in the hour before its timestamp when the batch holds
   * a failure with its (timestamp, user), and 0 otherwise.  This holds for
   * non-failure rows too: they pick up the count of a failure sharing
   * their key.
   */
  lemma TableFailedLogins(events: seq<Event>, j: nat)
    requires j < |Table(events)|
    ensures var out := Table(events)[j];
      var u, t := out.row.event.user, out.row.event.time;
      out.failedLogins == if HasFailureAt(events, u, t) then WindowFailures(events, u, t) else 0
  {
    var rows := SortedRows(events);
    var failures := FailuresOf(rows);
    var right := CounterTable(rows);
    var out := Table(events)[j];
    var u, t := out.row.event.user, out.row.event.time;
    JoinedRowOrigin(rows, right, j);
    KeyChain(events, out.row);
    if MatchCount(right, out.row) == 0 {
      if HasFailureAt(events, u, t) {
        var i :| 0 <= i < |events| && FailureAt(events[i], u, t);
        CountPositive(events, e => FailureAt(e, u, t), i);
        assert false;
      }
    } else {
      var i := CountWitness(events, e => FailureAt(e, u, t));
      var k :| 0 <= k < |right| && KeyMatches(right[k], out.row) && right[k].failedLogins == out.failedLogins;
      FailureCountMeaning(failures, k);
      WindowChain(events, u, t);
    }
  }

  /** The merged table is in ascending timestamp order. */
  lemma TableSorted(events: seq<Event>)
    ensures JoinedSortedByTime(Table(events))
  {
    var rows := SortedRows(events);
    LeftJoinSorted(rows, CounterTable(rows));
  }

  /** Every merged row is the derived row of some input event. */
  lemma TableRowOrigin(events: seq<Event>, j: nat)
    requires j < |Table(events)|
    ensures exists i :: 0 <= i < |events| && Table(events)[j].row == Derive(events)[i]
  {
    var rows := SortedRows(events);
    JoinedRowOrigin(rows, CounterTable(rows), j);
    var x := Table(events)[j].row;
    assert x in multiset(Derive(events));
  }

  /** Every input event's derived row appears in the merged table. */
  lemma {:induction false} TableCoversEvents(events: seq<Event>, i: nat)
    requires i < |events|
    ensures exists j :: 0 <= j < |Table(events)| && Table(events)[j].row == Derive(events)[i]
  {
    var rows := SortedRows(events);
    var x := Derive(events)[i];
    assert x in multiset(Derive(events));
    assert x in rows;
    var k := IndexOf(rows, x);
    LeftJoinCovers(rows, CounterTable(rows), k);
    assert Table(events) == LeftJoin(rows, CounterTable(rows));
    assert rows[k] == Derive(events)[i];
  }

  /** No two login failures of the batch share (timestamp, user). */
  predicate UniqueFailureKeys(events: seq<Event>) {
    forall i, k :: 0 <= i < |events| && 0 <= k < |events| && events[i].eventType == LoginFailure
      && events[k].eventType == LoginFailure && events[i].user == events[k].user && events[i].time == events[k].time
      ==> i == k
  }

  /** With unique failure keys no sorted row shares its key with two counter entries. */
  lemma UniqueKeysAtMostOneMatch(events: seq<Event>)
    requires UniqueFailureKeys(events)
    ensures AtMostOneMatch(SortedRows(events), CounterTable(SortedRows(events)))
  {
    var rows := SortedRows(events);
    var right := CounterTable(rows);
    forall i | 0 <= i < |rows| ensures MatchCount(right, rows[i]) <= 1 {
      var u, t := rows[i].event.user, rows[i].event.time;
      KeyChain(events, rows[i]);
      CountAtMostOne(events, e => FailureAt(e, u, t));
    }
  }

  /**
   * With unique failure keys the merge adds no rows: the table has one row
   * per input event, row i being sorted row i with its own count or 0.
   */
  lemma UniqueKeysKeepRows(events: seq<Event>)
    requires UniqueFailureKeys(events)
    ensures |Table(events)| == |events|
    ensures forall i :: 0 <= i < |events| ==> Table(events)[i].row == SortedRows(events)[i]
  {
    var rows := SortedRows(events);
    var right := CounterTable(rows);
    UniqueKeysAtMostOneMatch(events);
    LeftJoinOneToOne(rows, right);
    forall i | 0 <= i < |events| ensures Table(events)[i].row == rows[i] {
      JoinRowContents(rows[i], right);
    }
  }


  // ---------------------------------------------------------------------
  // The single-event batch built by the live scoring path

  /** A one-event batch has no window failures before its own time. */
  lemma SingleEventWindow(e: Event)
    ensures WindowFailures([e], e.user, e.time) == 0
  {
    assert [e][..0] == [];
  }

  /** The merged table of one event: its derived row, type code 0, with no failed logins. */
  lemma SingleEventTable(e: Event)
    ensures Derive([e])[0].eventTypeCode == 0
    ensures Table([e]) == [JoinedRow(Derive([e])[0], 0)]
  {
    var events := [e];
    FirstRowCodeZero(events);
    var r := Derive(events)[0];
    assert UniqueFailureKeys(events);
    UniqueKeysKeepRows(events);
    TableFailedLogins(events, 0);
    SingleEventWindow(e);
    assert Table(events)[0] == JoinedRow(r, 0);
  }

  /** A one-row table has address count 1 and user rate 1/15. */
  lemma SingleRowProject(j: JoinedRow)
    ensures var r := j.row;
      Project([j]) == [FeatureVector(r.eventHour, r.eventTypeCode, r.resourceDepth, r.isPrivilegedEvent, r.isWeekend, j.failedLogins, 1, 1.0 / 15.0)]
  {
    PopulationBounds([j], 0);
  }

  /**
   * A batch of one event whose timestamp parses yields one vector: its
   * scalar columns, type code 0, no failed logins, address count 1 and
   * user rate 1/15.
   */
  lemma SingleEvent(raw: RawEvent)
    requires ParseTimestamp(raw.timestamp).Some?
    ensures var r := Derive([Validated([raw], 0)])[0];
      Extract([raw]) == Success([FeatureVector(r.eventHour, 0, r.resourceDepth, r.isPrivilegedEvent, r.isWeekend, 0, 1, 1.0 / 15.0)])
  {
    var e := Validated([raw], 0);
    assert Normalize([raw]).value == [e];
    SingleEventTable(e);
    SingleRowProject(JoinedRow(Derive([e])[0], 0));
  }

  lemma SampleDepth()
    ensures SlashCount("/secure/data") == 2
  {
    SlashCountIsMultiplicity("secure");
    SlashCountIsMultiplicity("data");
    SlashCountAppend("/", "secure");
    SlashCountAppend("/secure", "/");
    SlashCountAppend("/secure/", "data");
    assert "/"[..0] == [];
    assert SlashCount("/") == 1;
    assert multiset("secure")['/'] == 0;
    assert multiset("data")['/'] == 0;
    assert "/" + "secure" == "/secure";
    assert "/secure" + "/" == "/secure/";
    assert "/secure/" + "data" == "/secure/data";
  }

  /** The scalar columns of a login failure on `/secure/data` at 10 o'clock on a Monday. */
  lemma SampleColumns(e: Event)
    requires HourOf(e.time) == 10 && WeekdayOf(e.time) == 0
    requires e.eventType == "login_failure" && e.resource == "/secure/data"
    ensures var r := Derive([e])[0];
      r.eventHour == 10 && r.resourceDepth == 2 && r.isPrivilegedEvent == 0 && !r.isWeekend
  {
    SampleDepth();
    assert "login_failure" !in PrivilegedTypes;
  }

  /**
   * The sample request of the test suite: a login failure at 10:22 on
   * Monday 14 July 2025 on `/secure/data` gives hour 10, code 0, depth 2,
   * not privileged, not weekend, no failed logins, address count 1 and
   * rate 1/15.
   */
  lemma SampleRequest()
    ensures Extract([RawEvent("2025-07-14T10:22:00", "user_10", "192.168.1.1", "login_failure", "/secure/data")])
      == Success([FeatureVector(10, 0, 2, 0, false, 0, 1, 1.0 / 15.0)])
  {
    var raw := RawEvent("2025-07-14T10:22:00", "user_10", "192.168.1.1", "login_failure", "/secure/data");
    ExampleTimestamp();
    SingleEvent(raw);
    SampleColumns(Validated([raw], 0));
  }
}
