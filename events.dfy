/**
 * Audit events: the record a caller submits and its normalised form,
 * and the validation step that parses the timestamp column of a whole
 * batch (`pd.to_datetime(..., errors='coerce')`, then a check for
 * missing values).
 */
module Events {
  import opened Results
  import opened Calendar
  import opened Timestamps

  /** An audit event as submitted: every field is text. */
  datatype RawEvent = RawEvent(timestamp: string, user: string, ipAddress: string, eventType: string, resource: string)

  /**
   * A validated event.  `row` is its position in the submitted batch
   * (the frame's index label); `time` is seconds since the epoch.
   */
  datatype Event = Event(row: nat, time: int, user: string, ipAddress: string, eventType: string, resource: string)

  /** The one error extraction can raise. */
  datatype Error = ValueError(message: string)

  const InvalidTimestampMessage: string :=
    "Invalid timestamp format. Make sure ISO 8601 format is used (e.g. '2025-07-14T10:22:00')."

  /** The parsed timestamp column; a missing value stands for a text that did not parse. */
  function TimestampColumn(raws: seq<RawEvent>): (column: seq<Option<int>>)
    ensures |column| == |raws|
    ensures forall i :: 0 <= i < |raws| ==> column[i] == ParseTimestamp(raws[i].timestamp)
  {
    if raws == [] then []
    else TimestampColumn(raws[..|raws| - 1]) + [ParseTimestamp(raws[|raws| - 1].timestamp)]
  }

  predicate AllParse(raws: seq<RawEvent>) {
    forall i :: 0 <= i < |raws| ==> ParseTimestamp(raws[i].timestamp).Some?
  }

  /** The validated event at position `i` of a batch whose timestamps all parse. */
  function Validated(raws: seq<RawEvent>, i: nat): (e: Event)
    requires i < |raws| && ParseTimestamp(raws[i].timestamp).Some?
    ensures var r := raws[i];
      && e == Event(i, e.time, r.user, r.ipAddress, r.eventType, r.resource)
      && e.time == ToSeconds(Fields(r.timestamp)) && InTimestampRange(e.time)
      && HourOf(e.time) == Fields(r.timestamp).hour
  {
    var r := raws[i];
    ParsedHourAndWeekday(r.timestamp);
    Event(i, ParseTimestamp(r.timestamp).value, r.user, r.ipAddress, r.eventType, r.resource)
  }

  /**
   * Validate a batch: one unparseable timestamp fails the whole batch with
   * the ISO 8601 message, otherwise every record becomes an event in place.
   */
  function Normalize(raws: seq<RawEvent>): (r: Result<seq<Event>, Error>)
    ensures r.Failure? <==> exists i :: 0 <= i < |raws| && ParseTimestamp(raws[i].timestamp).None?
    ensures r.Failure? ==> r.error == ValueError(InvalidTimestampMessage)
    ensures r.Success? ==> |r.value| == |raws|
    ensures r.Success? ==> forall i :: 0 <= i < |raws| ==> r.value[i] == Validated(raws, i)
  {
    var column := TimestampColumn(raws);
    if exists i :: 0 <= i < |column| && column[i].None? then Failure(ValueError(InvalidTimestampMessage))
    else Success(seq(|raws|, i requires 0 <= i < |raws| && AllParse(raws) => Validated(raws, i)))
  }

  /** The text of the invalid-timestamp test case is rejected. */
  lemma InvalidDateRejected()
    ensures ParseTimestamp("invalid-date") == None
  {
  }
}
