/**
 * The per-event feature columns computed before the table is re-sorted:
 * hour of day, the batch-local event type code, the depth of the
 * resource path, the privileged-event flag and the weekend flag.
 */
module ScalarFeatures {
  import opened Seqs
  import opened Calendar
  import opened Events

  const PrivilegedTypes: set<string> := {"privilege_escalation", "config_change"}

  /** A row of the frame after the scalar columns have been added. */
  datatype Row = Row(event: Event, eventHour: int, eventTypeCode: nat, resourceDepth: nat,
                     isPrivilegedEvent: int, isWeekend: bool)

  function EventTypes(events: seq<Event>): (types: seq<string>)
    ensures |types| == |events|
    ensures forall i :: 0 <= i < |events| ==> types[i] == events[i].eventType
  {
    seq(|events|, i requires 0 <= i < |events| => events[i].eventType)
  }

  /** The event type vocabulary of a batch, in first-seen order (`unique()`). */
  function Vocabulary(events: seq<Event>): (vocabulary: seq<string>)
    ensures forall i :: 0 <= i < |events| ==> events[i].eventType in vocabulary
    ensures forall c :: 0 <= c < |vocabulary| ==> exists i :: 0 <= i < |events| && events[i].eventType == vocabulary[c]
    ensures NoDuplicates(vocabulary)
  {
    var types := EventTypes(events);
    var vocabulary := Distinct(types);
    assert forall c :: 0 <= c < |vocabulary| ==> vocabulary[c] in types;
    vocabulary
  }

  /** Code of an event type: its position in the first-seen vocabulary. */
  function TypeCode(vocabulary: seq<string>, eventType: string): (code: nat)
    requires eventType in vocabulary
    ensures code < |vocabulary| && vocabulary[code] == eventType
    ensures forall c :: 0 <= c < code ==> vocabulary[c] != eventType
  {
    IndexOf(vocabulary, eventType)
  }

  predicate IsSlash(c: char) {
    c == '/'
  }

  /** Number of `/` characters in a resource path (`str.count("/")`). */
  function SlashCount(s: string): (depth: nat)
    ensures depth <= |s|
    ensures depth == 0 <==> '/' !in s
  {
    CountZero(s, IsSlash);
    Count(s, IsSlash)
  }

  /**
   * The scalar columns of one event: hour of day in 0..23, the position of
   * its type in the vocabulary, the number of `/` in its resource, 1 for
   * the two privileged types and 0 otherwise, weekend on Saturday and Sunday.
   */
  function ScalarRow(e: Event, vocabulary: seq<string>): (row: Row)
    requires e.eventType in vocabulary
    ensures row.event == e
    ensures row.eventHour == HourOf(e.time) && 0 <= row.eventHour <= 23
    ensures row.eventTypeCode < |vocabulary| && vocabulary[row.eventTypeCode] == e.eventType
    ensures row.resourceDepth == multiset(e.resource)['/']
    ensures row.isPrivilegedEvent == 1 <==> e.eventType == "privilege_escalation" || e.eventType == "config_change"
    ensures row.isPrivilegedEvent == 0 || row.isPrivilegedEvent == 1
    ensures row.isWeekend <==> WeekdayOf(e.time) == 5 || WeekdayOf(e.time) == 6
  {
    SlashCountIsMultiplicity(e.resource);
    Row(e,
        HourOf(e.time),
        TypeCode(vocabulary, e.eventType),
        SlashCount(e.resource),
        if e.eventType in PrivilegedTypes then 1 else 0,
        WeekdayOf(e.time) >= 5)
  }

  /** Add the scalar columns to a batch of events, in input order. */
  function Derive(events: seq<Event>): (rows: seq<Row>)
    ensures |rows| == |events|
    ensures forall i :: 0 <= i < |events| ==> rows[i].event == events[i]
  {
    var vocabulary := Vocabulary(events);
    seq(|events|, i requires 0 <= i < |events| => ScalarRow(events[i], vocabulary))
  }

  // ---------------------------------------------------------------------
  // Properties of the scalar columns

  /** The resource depth is the multiplicity of `/` in the resource text. */
  lemma {:induction false} SlashCountIsMultiplicity(s: string)
    ensures SlashCount(s) == multiset(s)['/']
  {
    if s != [] {
      var s' := s[..|s| - 1];
      assert s == s' + [s[|s| - 1]];
      SlashCountIsMultiplicity(s');
    }
  }

  /** The depth of a concatenated path is the sum of the depths of its parts. */
  lemma SlashCountAppend(a: string, b: string)
    ensures SlashCount(a + b) == SlashCount(a) + SlashCount(b)
  {
    CountAppend(a, b, IsSlash);
  }

  /**
   * The scalar columns of every row: hour in 0..23, depth = number of `/`,
   * privileged exactly for the two privileged types, weekend exactly on
   * Saturday and Sunday.
   */
  lemma ScalarColumns(events: seq<Event>, i: nat)
    requires i < |events|
    ensures var r := Derive(events)[i]; var e := events[i];
      && 0 <= r.eventHour <= 23 && r.eventHour == HourOf(e.time)
      && r.resourceDepth == multiset(e.resource)['/']
      && (r.isPrivilegedEvent == 1 <==> e.eventType == "privilege_escalation" || e.eventType == "config_change")
      && (r.isPrivilegedEvent == 0 || r.isPrivilegedEvent == 1)
      && (r.isWeekend <==> WeekdayOf(e.time) == 5 || WeekdayOf(e.time) == 6)
  {
  }

  /** Codes lie in [0, number of distinct types) and equal types get equal codes. */
  lemma TypeCodeRange(events: seq<Event>, i: nat, j: nat)
    requires i < |events| && j < |events|
    ensures Derive(events)[i].eventTypeCode < |Vocabulary(events)|
    ensures events[i].eventType == events[j].eventType
        ==> Derive(events)[i].eventTypeCode == Derive(events)[j].eventTypeCode
  {
  }

  /** The first row's type gets code 0. */
  lemma FirstRowCodeZero(events: seq<Event>)
    requires |events| > 0
    ensures Derive(events)[0].eventTypeCode == 0
  {
    DistinctHead(EventTypes(events));
  }

  /** Every code in [0, number of distinct types) is used by some row. */
  lemma TypeCodesDense(events: seq<Event>, c: nat)
    requires c < |Vocabulary(events)|
    ensures exists i :: 0 <= i < |events| && Derive(events)[i].eventTypeCode == c
  {
    var vocabulary := Vocabulary(events);
    var t := vocabulary[c];
    var i := IndexOf(EventTypes(events), t);
    assert Derive(events)[i].eventTypeCode == c;
  }

  /**
   * Codes follow first appearance in input order: one row's code is below
   * another's exactly when its type first occurs earlier in the batch.
   */
  lemma TypeCodesFirstSeen(events: seq<Event>, i: nat, j: nat)
    requires i < |events| && j < |events|
    ensures Derive(events)[i].eventTypeCode < Derive(events)[j].eventTypeCode
        <==> IndexOf(EventTypes(events), events[i].eventType) < IndexOf(EventTypes(events), events[j].eventType)
  {
    DistinctFirstSeenOrder(EventTypes(events), events[i].eventType, events[j].eventType);
  }
}
