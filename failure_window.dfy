/**
 * The per-user sliding-window counter of failed logins.  For each
 * `login_failure` row at time t by user u it counts u's failure rows
 * whose time lies in the half-open window [t - 1 hour, t).
 */
module FailureWindow {
  import opened Seqs
  import opened Calendar
  import opened ScalarFeatures

  const LoginFailure: string := "login_failure"

  /** Length of the trailing window (`pd.Timedelta(hours=1)`), in seconds. */
  const WindowLength: int := SecondsPerHour

  /** `x` lies in the window that ends at `t`: lower bound included, `t` itself excluded. */
  predicate InWindow(x: int, t: int) {
    t - WindowLength <= x < t
  }

  predicate IsFailure(r: Row) {
    r.event.eventType == LoginFailure
  }

  /** The failure rows, in table order (`df[df["event_type"] == "login_failure"]`). */
  function FailuresOf(rows: seq<Row>): (failures: seq<Row>)
    ensures |failures| == Count(rows, IsFailure)
    ensures forall k :: 0 <= k < |failures| ==> failures[k] == rows[Positions(rows, IsFailure)[k]]
    ensures forall k :: 0 <= k < |failures| ==> IsFailure(failures[k])
    ensures forall i :: 0 <= i < |rows| && IsFailure(rows[i]) ==> rows[i] in failures
  {
    Filter(rows, IsFailure)
  }

  function Users(rows: seq<Row>): (users: seq<string>)
    ensures |users| == |rows|
    ensures forall k :: 0 <= k < |rows| ==> users[k] == rows[k].event.user
  {
    seq(|rows|, k requires 0 <= k < |rows| => rows[k].event.user)
  }

  /** The mask of user `u`'s rows. */
  function ByUser(u: string): Row -> bool {
    (r: Row) => r.event.user == u
  }

  /** Positions of user `u`'s rows, ascending: the index of the user's group. */
  function GroupPositions(rows: seq<Row>, u: string): (ps: seq<nat>)
    ensures forall j :: 0 <= j < |ps| ==> ps[j] < |rows| && rows[ps[j]].event.user == u
    ensures forall j, j' :: 0 <= j < j' < |ps| ==> ps[j] < ps[j']
    ensures forall k :: 0 <= k < |rows| && rows[k].event.user == u ==> k in ps
  {
    Positions(rows, ByUser(u))
  }

  /** The timestamps of user `u`'s group, in table order (`group["timestamp"]`). */
  function GroupTimes(rows: seq<Row>, u: string): (times: seq<int>)
    ensures |times| == |GroupPositions(rows, u)|
  {
    var ps := GroupPositions(rows, u);
    seq(|ps|, j requires 0 <= j < |ps| => rows[ps[j]].event.time)
  }

  /** How many of `times` lie in the window ending at `t`. */
  function WindowCount(times: seq<int>, t: int): (c: nat)
    ensures c <= |times|
    ensures c == 0 <==> forall k :: 0 <= k < |times| ==> !InWindow(times[k], t)
  {
    CountZero(times, x => InWindow(x, t));
    Count(times, x => InWindow(x, t))
  }

  /** The counter column of the failure rows: the specification of CountFailures. */
  function FailureCounts(failures: seq<Row>): (counts: seq<int>)
    ensures |counts| == |failures|
  {
    seq(|failures|, k requires 0 <= k < |failures| =>
      WindowCount(GroupTimes(failures, failures[k].event.user), failures[k].event.time))
  }

  // ---------------------------------------------------------------------
  // What the counter means

  /** Row `r` is by user `u` at a time inside the window that ends at `t`. */
  predicate SameUserInWindow(r: Row, u: string, t: int) {
    r.event.user == u && InWindow(r.event.time, t)
  }

  lemma {:induction false} GroupTimesStep(rows: seq<Row>, u: string)
    requires |rows| > 0
    ensures var p, x := rows[..|rows| - 1], rows[|rows| - 1];
      GroupTimes(rows, u) == GroupTimes(p, u) + (if x.event.user == u then [x.event.time] else [])
  {
    var p, x := rows[..|rows| - 1], rows[|rows| - 1];
    var ps, ps' := GroupPositions(rows, u), GroupPositions(p, u);
    var expected := GroupTimes(p, u) + (if x.event.user == u then [x.event.time] else []);
    assert |GroupTimes(rows, u)| == |expected|;
    forall j | 0 <= j < |ps| ensures GroupTimes(rows, u)[j] == expected[j] {
      if j < |ps'| {
        assert rows[ps[j]] == p[ps'[j]];
      }
    }
  }

  /**
   * The window count over a user's group is the number of that user's rows
   * whose time is in the window [t - 1 hour, t).
   */
  lemma {:induction false} GroupWindowCount(rows: seq<Row>, u: string, t: int)
    ensures WindowCount(GroupTimes(rows, u), t) == Count(rows, r => SameUserInWindow(r, u, t))
    decreases |rows|
  {
    if rows != [] {
      var p, x := rows[..|rows| - 1], rows[|rows| - 1];
      GroupTimesStep(rows, u);
      GroupWindowCount(p, u, t);
      var a := GroupTimes(p, u);
      assert rows == p + [x];
      CountSnoc(p, x, r => SameUserInWindow(r, u, t));
      if x.event.user == u {
        CountSnoc(a, x.event.time, y => InWindow(y, t));
        assert GroupTimes(rows, u) == a + [x.event.time];
        assert WindowCount(GroupTimes(rows, u), t) == WindowCount(a, t) + (if InWindow(x.event.time, t) then 1 else 0);
      } else {
        assert GroupTimes(rows, u) == a;
      }
    }
  }

  /**
   * The counter of failure row `k` (user u, time t) is the number of u's
   * failure rows at a time in [t - 1 hour, t): the lower bound counts, the
   * row itself and every failure at exactly t do not.
   */
  lemma FailureCountMeaning(failures: seq<Row>, k: nat)
    requires k < |failures|
    ensures var u, t := failures[k].event.user, failures[k].event.time;
      FailureCounts(failures)[k] == Count(failures, r => SameUserInWindow(r, u, t))
  {
    GroupWindowCount(failures, failures[k].event.user, failures[k].event.time);
  }

  /** A failure is never counted in its own window: the count is below the user's failure total. */
  lemma FailureCountBelowUserTotal(failures: seq<Row>, k: nat)
    requires k < |failures|
    ensures var u := failures[k].event.user;
      FailureCounts(failures)[k] <= Count(failures, (r: Row) => r.event.user == u) - 1
  {
    var u, t := failures[k].event.user, failures[k].event.time;
    FailureCountMeaning(failures, k);
    CountStrictlyBelow(failures, r => SameUserInWindow(r, u, t), (r: Row) => r.event.user == u, k);
  }

  /**
   * Failures of one user at 10:00, 10:40 and 11:10 count 0, 1 and 1: the
   * window of 11:10 is [10:10, 11:10) and holds only 10:40.
   */
  lemma ThreeFailuresExample(t0: int)
    ensures var times := [t0, t0 + 2400, t0 + 4200];
      WindowCount(times, times[0]) == 0 && WindowCount(times, times[1]) == 1
      && WindowCount(times, times[2]) == 1
  {
    var times := [t0, t0 + 2400, t0 + 4200];
    forall t | t in times ensures WindowCount(times, t) == Count([t0], x => InWindow(x, t))
        + (if InWindow(t0 + 2400, t) then 1 else 0) + (if InWindow(t0 + 4200, t) then 1 else 0) {
      CountSnoc([t0], t0 + 2400, x => InWindow(x, t));
      CountSnoc([t0, t0 + 2400], t0 + 4200, x => InWindow(x, t));
      assert [t0] + [t0 + 2400] + [t0 + 4200] == times;
    }
    forall t | t in times ensures Count([t0], x => InWindow(x, t)) == if InWindow(t0, t) then 1 else 0 {
      CountSnoc([], t0, x => InWindow(x, t));
      assert [] + [t0] == [t0];
    }
  }

  /** A failure exactly one hour earlier counts; one at the same instant does not. */
  lemma WindowBoundaries(t: int)
    ensures WindowCount([t - WindowLength, t], t) == 1
    ensures WindowCount([t, t], t) == 0
  {
    CountSnoc([t - WindowLength], t, x => InWindow(x, t));
    CountSnoc([t], t, x => InWindow(x, t));
    assert [t - WindowLength] + [t] == [t - WindowLength, t] && [t] + [t] == [t, t];
    assert [t - WindowLength][..0] == [] && [t][..0] == [];
  }

  // ---------------------------------------------------------------------
  // The counter as the source computes it

  /**
   * The count for position `i` of a group: the number of the group's
   * timestamps at or after `times[i]` minus one hour and before `times[i]`.
   */
  method WindowCountAt(times: seq<int>, i: nat) returns (count: nat)
    requires i < |times|
    ensures count == WindowCount(times, times[i])
  {
    var currentTime := times[i];
    var windowStart := currentTime - WindowLength;
    count := 0;
    for k := 0 to |times|
      invariant count == WindowCount(times[..k], currentTime)
    {
      assert times[..k + 1][..k] == times[..k];
      if windowStart <= times[k] && times[k] < currentTime {
        count := count + 1;
      }
    }
    assert times[..|times|] == times;
  }

  /** Position `j` of a group's counts is the counter of the row at the group's `j`-th position. */
  lemma GroupCountIsSpec(failures: seq<Row>, u: string, j: nat)
    requires j < |GroupPositions(failures, u)|
    ensures var times := GroupTimes(failures, u); var k := GroupPositions(failures, u)[j];
      WindowCount(times, times[j]) == FailureCounts(failures)[k]
  {
  }

  /** The counter column holds the final counts of the users in `done` and 0 elsewhere. */
  ghost predicate Written(failures: seq<Row>, done: seq<string>, column: seq<int>) {
    |column| == |failures|
    && forall k :: 0 <= k < |failures| ==>
         column[k] == if failures[k].event.user in done then FailureCounts(failures)[k] else 0
  }

  /** Writing the next user's group counts at its positions extends Written by that user. */
  lemma GroupWritten(failures: seq<Row>, users: seq<string>, g: nat, before: seq<int>, after: seq<int>)
    requires g < |users|
    requires Written(failures, users[..g], before) && |after| == |before|
    requires var index := GroupPositions(failures, users[g]); var times := GroupTimes(failures, users[g]);
      && (forall j :: 0 <= j < |index| ==> after[index[j]] == WindowCount(times, times[j]))
      && (forall k :: 0 <= k < |after| && k !in index ==> after[k] == before[k])
    ensures Written(failures, users[..g + 1], after)
  {
    var user := users[g];
    var index := GroupPositions(failures, user);
    assert users[..g + 1] == users[..g] + [user];
    forall k | 0 <= k < |failures|
      ensures after[k] == if failures[k].event.user in users[..g + 1] then FailureCounts(failures)[k] else 0
    {
      if failures[k].event.user == user {
        var j :| 0 <= j < |index| && index[j] == k;
        GroupCountIsSpec(failures, user, j);
      }
    }
  }

  /** The counts of one user group, position by position (the inner loop). */
  method GroupCounts(times: seq<int>) returns (counts: seq<int>)
    ensures |counts| == |times|
    ensures forall j :: 0 <= j < |times| ==> counts[j] == WindowCount(times, times[j])
  {
    counts := [];
    for i := 0 to |times|
      invariant |counts| == i
      invariant forall j :: 0 <= j < i ==> counts[j] == WindowCount(times, times[j])
    {
      var count := WindowCountAt(times, i);
      counts := counts + [count];
    }
  }

  /** Write `values` into `column` at the distinct positions `index` (`failures.loc[index, ...] = values`). */
  method AssignAt(column: array<int>, index: seq<nat>, values: seq<int>)
    requires |index| == |values|
    requires forall j :: 0 <= j < |index| ==> index[j] < column.Length
    requires forall j, j' :: 0 <= j < j' < |index| ==> index[j] < index[j']
    modifies column
    ensures forall j :: 0 <= j < |index| ==> column[index[j]] == values[j]
    ensures forall k :: 0 <= k < column.Length && k !in index ==> column[k] == old(column[k])
  {
    for j := 0 to |index|
      invariant forall j' :: 0 <= j' < j ==> column[index[j']] == values[j']
      invariant forall k :: 0 <= k < column.Length && k !in index[..j] ==> column[k] == old(column[k])
    {
      column[index[j]] := values[j];
      assert index[..j + 1] == index[..j] + [index[j]];
    }
    assert index[..|index|] == index;
  }

  /**
   * One iteration of the loop over user groups: compute the counts of the
   * group of `users[g]` and write them at the group's positions.
   */
  method CountGroup(failures: seq<Row>, users: seq<string>, g: nat, column: array<int>)
    requires g < |users| && Written(failures, users[..g], column[..])
    modifies column
    ensures Written(failures, users[..g + 1], column[..])
  {
    var user := users[g];
    var index := GroupPositions(failures, user);
    var times := GroupTimes(failures, user);
    var groupCounts := GroupCounts(times);
    ghost var before := column[..];
    AssignAt(column, index, groupCounts);
    ghost var after := column[..];
    assert forall j :: 0 <= j < |index| ==> after[index[j]] == WindowCount(times, times[j]);
    assert forall k :: 0 <= k < |after| && k !in index ==> after[k] == before[k];
    GroupWritten(failures, users, g, before, after);
  }

  /**
   * The counter column for the failure rows: start from 0, then for each
   * user group compute the group's counts in order and write them back at
   * the group's positions.
   */
  method CountFailures(failures: seq<Row>) returns (counts: seq<int>)
    ensures counts == FailureCounts(failures)
  {
    var column := new int[|failures|](_ => 0);
    var users := Distinct(Users(failures));
    for g := 0 to |users|
      invariant Written(failures, users[..g], column[..])
    {
      CountGroup(failures, users, g, column);
    }
    forall k | 0 <= k < |failures| ensures failures[k].event.user in users {
      assert Users(failures)[k] == failures[k].event.user;
    }
    assert users[..|users|] == users;
    counts := column[..];
    assert forall k :: 0 <= k < |failures| ==> counts[k] == FailureCounts(failures)[k];
  }
}
