/**
 * Batch-relative population counts and the fixed projection onto the eight
 * feature columns.  Both counts are taken over the MERGED table, so a row
 * that the merge duplicated is counted once per copy.
 */
module Population {
  import opened Seqs
  import opened Join

  /** The assumed observation span, in days, that divides the user's row count. */
  const ObservationDays: real := 15.0

  /** The eight feature columns handed to the risk model, in column order. */
  datatype FeatureVector = FeatureVector(
    eventHour: int,
    eventTypeCode: nat,
    resourceDepth: nat,
    isPrivilegedEvent: int,
    isWeekend: bool,
    failedLoginsLast1h: int,
    ipEventCount: nat,
    userEventRate: real)

  predicate SameIp(j: JoinedRow, ip: string) {
    j.row.event.ipAddress == ip
  }

  predicate SameUser(j: JoinedRow, u: string) {
    j.row.event.user == u
  }

  /** Number of rows of the table with address `ip` (`value_counts` looked up by `map`). */
  function IpCount(table: seq<JoinedRow>, ip: string): (c: nat)
    ensures c <= |table|
    ensures c == 0 <==> forall k :: 0 <= k < |table| ==> table[k].row.event.ipAddress != ip
  {
    CountZero(table, j => SameIp(j, ip));
    Count(table, j => SameIp(j, ip))
  }

  /** Number of rows of the table by user `u` (`groupby("user")...transform("count")`). */
  function UserCount(table: seq<JoinedRow>, u: string): (c: nat)
    ensures c <= |table|
    ensures c == 0 <==> forall k :: 0 <= k < |table| ==> table[k].row.event.user != u
  {
    CountZero(table, j => SameUser(j, u));
    Count(table, j => SameUser(j, u))
  }

  /**
   * The feature vector of merged row `i`: its scalar columns and count
   * unchanged, an address count of at least 1 (the row itself) and a user
   * rate of at least 1/15.
   */
  function Features(table: seq<JoinedRow>, i: nat): (f: FeatureVector)
    requires i < |table|
    ensures var j := table[i];
      && f.eventHour == j.row.eventHour && f.eventTypeCode == j.row.eventTypeCode
      && f.resourceDepth == j.row.resourceDepth && f.isPrivilegedEvent == j.row.isPrivilegedEvent
      && f.isWeekend == j.row.isWeekend && f.failedLoginsLast1h == j.failedLogins
    ensures 1 <= f.ipEventCount <= |table|
    ensures 1.0 / ObservationDays <= f.userEventRate <= |table| as real / ObservationDays
  {
    var j := table[i];
    var r := j.row;
    FeatureVector(r.eventHour, r.eventTypeCode, r.resourceDepth, r.isPrivilegedEvent, r.isWeekend,
      j.failedLogins, IpCount(table, r.event.ipAddress), UserCount(table, r.event.user) as real / ObservationDays)
  }

  /** The feature table: one vector per merged row, in merged-table order. */
  function Project(table: seq<JoinedRow>): (fs: seq<FeatureVector>)
    ensures |fs| == |table|
  {
    seq(|table|, i requires 0 <= i < |table| => Features(table, i))
  }

  // ---------------------------------------------------------------------
  // Properties of the counts

  /**
   * Each row counts itself: the address count lies between 1 and the table
   * size, and the user rate between 1/15 and size/15.
   */
  lemma PopulationBounds(table: seq<JoinedRow>, i: nat)
    requires i < |table|
    ensures var f, e := Project(table)[i], table[i].row.event;
      && f.ipEventCount == IpCount(table, e.ipAddress)
      && 1 <= f.ipEventCount <= |table|
      && f.userEventRate == UserCount(table, e.user) as real / ObservationDays
      && 1.0 / ObservationDays <= f.userEventRate <= |table| as real / ObservationDays
  {
    var e := table[i].row.event;
    CountPositive(table, j => SameIp(j, e.ipAddress), i);
    CountPositive(table, j => SameUser(j, e.user), i);
  }

  /** Rows sharing an address carry the same address count; rows sharing a user, the same rate. */
  lemma PopulationConsistent(table: seq<JoinedRow>, i: nat, k: nat)
    requires i < |table| && k < |table|
    ensures table[i].row.event.ipAddress == table[k].row.event.ipAddress ==>
      Project(table)[i].ipEventCount == Project(table)[k].ipEventCount
    ensures table[i].row.event.user == table[k].row.event.user ==>
      Project(table)[i].userEventRate == Project(table)[k].userEventRate
  {
  }

  /** The other columns are the merged row's own, unchanged. */
  lemma ProjectedColumns(table: seq<JoinedRow>, i: nat)
    requires i < |table|
    ensures var f, j := Project(table)[i], table[i];
      && f.eventHour == j.row.eventHour && f.eventTypeCode == j.row.eventTypeCode
      && f.resourceDepth == j.row.resourceDepth && f.isPrivilegedEvent == j.row.isPrivilegedEvent
      && f.isWeekend == j.row.isWeekend && f.failedLoginsLast1h == j.failedLogins
  {
  }

  /**
   * Three rows from one address, two of them by one user, and one row from
   * another address: the address count is 3 on each of the three, 1 on the
   * fourth, and the shared user's rate is 2/15.
   */
  lemma ThreeRowsOneAddress(a: JoinedRow, b: JoinedRow, c: JoinedRow, d: JoinedRow)
    requires a.row.event.ipAddress == b.row.event.ipAddress == c.row.event.ipAddress != d.row.event.ipAddress
    requires a.row.event.user == b.row.event.user && c.row.event.user != a.row.event.user && d.row.event.user != a.row.event.user
    ensures var fs := Project([a, b, c, d]);
      && fs[0].ipEventCount == fs[1].ipEventCount == fs[2].ipEventCount == 3
      && fs[3].ipEventCount == 1
      && fs[0].userEventRate == fs[1].userEventRate == 2.0 / 15.0
  {
    var t := [a, b, c, d];
    var ip, other, u := a.row.event.ipAddress, d.row.event.ipAddress, a.row.event.user;
    assert [a] == [] + [a] && [a, b] == [a] + [b] && [a, b, c] == [a, b] + [c] && t == [a, b, c] + [d];
    CountSnoc([], a, j => SameIp(j, ip));
    CountSnoc([a], b, j => SameIp(j, ip));
    CountSnoc([a, b], c, j => SameIp(j, ip));
    CountSnoc([a, b, c], d, j => SameIp(j, ip));
    CountSnoc([], a, j => SameIp(j, other));
    CountSnoc([a], b, j => SameIp(j, other));
    CountSnoc([a, b], c, j => SameIp(j, other));
    CountSnoc([a, b, c], d, j => SameIp(j, other));
    CountSnoc([], a, j => SameUser(j, u));
    CountSnoc([a], b, j => SameUser(j, u));
    CountSnoc([a, b], c, j => SameUser(j, u));
    CountSnoc([a, b, c], d, j => SameUser(j, u));
  }
}
