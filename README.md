# Audit-log feature extraction, modelled in Dafny

This project models the feature extraction of the audit-log risk scoring
API (`extract_features` in `api/risk_scoring_api.py`). The function turns
audit events `{timestamp, user, ip_address, event_type, resource}` into the
eight numeric columns that the risk model scores:

- hour of day;
- a first-seen code for the event type;
- depth of the resource path;
- a privileged-event flag;
- a weekend flag;
- the user's login failures in the preceding hour;
- the number of rows from the same IP address;
- the user's row count divided by 15.

The live path wraps one request in a one-row table, but every step after
that works on any table. The model therefore works on a whole batch, and
the one-row case is a lemma (`Extraction.SingleEvent`).

Modules, in pipeline order:

- `Results`: `Option` and `Result`.
- `Seqs`: counting and filtering by a predicate, and first-seen distinct values. These stand for pandas boolean masks, `value_counts` and `unique`.
- `Calendar`: proleptic Gregorian day numbers, hour of day, and weekday with Monday = 0.
- `Timestamps`: the ISO 8601 extended form `YYYY-MM-DDThh:mm:ss`, parsed into a whole number of seconds since 1970-01-01T00:00:00.
- `Events`: validation of a batch. A single unparseable timestamp fails the whole batch with the `ValueError` message. Otherwise each record becomes an event that keeps its row label.
- `ScalarFeatures`: the per-row columns (source lines 27-32).
- `Ordering`: sorting by timestamp (line 35).
- `FailureWindow`: the per-user one-hour failure counter (lines 38-54). The outer loop over the user groups writes the counter column in place, so it is a method over an `array<int>` (`CountFailures`, `CountGroup`). The inner loop builds the list `counts` by appending, so it is a method that builds a sequence (`GroupCounts`). Both are proved against the specification function `FailureCounts`.
- `Join`: the left merge on `(timestamp, user)` followed by `fillna(0)` (lines 57-62). It also holds a join by row label (`RowJoin`), kept for comparison: each failure's count attached to the row it was computed for. A lemma says when the two joins agree, and a concrete input shows where they differ.
- `Population`: the per-IP and per-user counts on the merged table, and the projection onto the eight columns (lines 64-80).
- `Extraction`: the whole pipeline, both as a function (`Extract`) and as the method that runs the in-place counter (`ExtractFeatures`), with the end-to-end properties.
- `Classification`: the "Anomaly iff score > 0.5" rule that the scoring endpoint applies to the model's output (line 95).

Behaviours of the code that the model reproduces as written:

- The code sorts the table by timestamp, so the merged table comes out in timestamp order, not input order.
- The code merges by the value pair `(timestamp, user)` rather than by row, so a row that shares `(timestamp, user)` with a failure takes that failure's count, and rows fan out when several failures share a key (`Join.KeyJoinBorrowsCount`, `Join.JoinRowContents`).
- The IP and user counts are taken on the merged table, so rows duplicated by the merge are counted once per copy.
- `is_weekend` is kept as the boolean that line 32 produces; line 32 never casts it to 0/1.

## Model

| member | source | states |
|---|---|---|
| Timestamps.ParseTimestamp | api/risk_scoring_api.py:23 | Succeeds only on a 19-character `YYYY-MM-DDThh:mm:ss` text that names a real date and time within the datetime64[ns] range. The value is that instant in seconds since the epoch. |
| Timestamps.ParseRejects | api/risk_scoring_api.py:23-24 | A text becomes NaT exactly when it is malformed, names no real date or time, or lies outside the nanosecond timestamp range. |
| Timestamps.FormatThenParse | api/risk_scoring_api.py:23 | Formatting any in-range date and time with a four-digit year, then parsing it, gives back the same instant. The parser reads every field. |
| Timestamps.DigitsRoundTrip | api/risk_scoring_api.py:23 | Reading back the zero-padded decimal digits of a number gives the number. |
| Timestamps.DecimalRoundTrip | api/risk_scoring_api.py:23 | Writing back the value of a digit string at its own width gives the same string. |
| Timestamps.ParseThenFormat | api/risk_scoring_api.py:23 | Every accepted text is the canonical `YYYY-MM-DDThh:mm:ss` spelling of the fields it names. |
| Timestamps.ToSecondsInjective | api/risk_scoring_api.py:23 | Two valid dates and times that give the same instant are the same six fields. |
| Timestamps.NoSecondSpelling | api/risk_scoring_api.py:23 | Two accepted texts that parse to the same instant are the same text: the parser accepts no second spelling of an instant. |
| Timestamps.FieldsThenFormat | api/risk_scoring_api.py:23 | A well-formed text that names a valid date and time has a four-digit year and is the formatting of its own six fields. |
| Timestamps.Reassemble | api/risk_scoring_api.py:23 | A well-formed text is its six digit fields joined by `-`, `-`, `T`, `:`, `:`. |
| Timestamps.ParsedHourAndWeekday | api/risk_scoring_api.py:27-32 | The hour and weekday taken from a parsed instant are the hour written in the text and the weekday of its calendar date. |
| Timestamps.ExampleTimestamp | api/risk_scoring_api.py:25 | The example in the error message, `2025-07-14T10:22:00`, parses to 10 o'clock on a Monday. |
| Timestamps.ExampleInstant | api/risk_scoring_api.py:25 | 14 July 2025, 10:22:00 is in range, at hour 10, on weekday 0. |
| Timestamps.ExampleText | api/risk_scoring_api.py:25 | The example instant formats as `2025-07-14T10:22:00`. |
| Calendar.DaysInMonth | api/risk_scoring_api.py:23 | Months have 28 to 31 days; February has 29 exactly in leap years. |
| Calendar.NextDate | api/risk_scoring_api.py:32 | The day after a valid date is a valid date. |
| Calendar.NextDateIsNextDay | api/risk_scoring_api.py:32 | Consecutive calendar dates have consecutive day numbers, including across month and year ends. |
| Calendar.YearStep | api/risk_scoring_api.py:32 | 1 January follows 31 December of the year before by one day. |
| Calendar.LeapYearsStep | api/risk_scoring_api.py:32 | The closed-form leap-year count goes up by one exactly at leap years. |
| Calendar.EpochIsDayZero | api/risk_scoring_api.py:32 | 1970-01-01 is day 0. |
| Calendar.HourOf | api/risk_scoring_api.py:27 | The hour of any instant, before or after 1970, lies in 0..23. |
| Calendar.WeekdayOf | api/risk_scoring_api.py:32 | The weekday of any instant lies in 0..6. |
| Calendar.InstantFields | api/risk_scoring_api.py:27-32 | An instant built from a date and a time of day gives back that hour, that day number and that date's weekday. |
| Calendar.WeekdayNextDay | api/risk_scoring_api.py:32 | One day later the weekday advances by one, modulo 7. |
| Calendar.DaysBeforeYearMonotone | api/risk_scoring_api.py:23 | A later year starts on a later or equal day number. |
| Calendar.DateWithinYear | api/risk_scoring_api.py:23 | A valid date's day number lies between its own year's January 1st and the next one's. |
| Calendar.DaysFromCivilInjective | api/risk_scoring_api.py:23 | Different valid dates have different day numbers. |
| Calendar.InstantInjective | api/risk_scoring_api.py:23 | Different valid dates and times of day give different instants. |
| Events.Normalize | api/risk_scoring_api.py:23-25 | Validation fails exactly when some timestamp does not parse, and then only with the ISO 8601 `ValueError` message, with no partial table. Otherwise there is one event per record, in order, carrying its parsed instant. |
| Events.Validated | api/risk_scoring_api.py:23 | The validated event keeps its row label, user, address, type and resource. Its time is the instant named by the text's fields, lies in the timestamp range, and has the text's hour as its hour of day. |
| Events.TimestampColumn | api/risk_scoring_api.py:23 | The parsed column has one entry per record: that record's parse. |
| Events.InvalidDateRejected | tests/test_api.py:34-36 | The test suite's `invalid-date` does not parse. |
| ScalarFeatures.Derive | api/risk_scoring_api.py:27-32 | One row per event, in input order, each carrying its own event. |
| ScalarFeatures.ScalarRow | api/risk_scoring_api.py:27-32 | The row keeps its event. The hour lies in 0..23. The type code is a position of the event's type in the vocabulary. The depth is the number of `/` in the resource. The privileged flag is 0 or 1, and 1 exactly for `privilege_escalation` and `config_change`. The weekend flag holds exactly on weekdays 5 and 6. |
| ScalarFeatures.Vocabulary | api/risk_scoring_api.py:28 | Every event's type is in the vocabulary, every vocabulary entry is some event's type, and no type occurs twice. |
| ScalarFeatures.TypeCode | api/risk_scoring_api.py:28-29 | The code of a type is the position of its first (and only) occurrence in the vocabulary. |
| ScalarFeatures.SlashCount | api/risk_scoring_api.py:30 | The depth is at most the length of the resource, and it is 0 exactly when the resource has no `/`. |
| ScalarFeatures.ScalarColumns | api/risk_scoring_api.py:27-32 | `event_hour` lies in 0..23 and is the event's hour. `resource_depth` is the number of `/` in the resource. `is_privileged_event` is 0 or 1, and 1 exactly for `privilege_escalation` and `config_change`. `is_weekend` holds exactly on weekdays 5 and 6. |
| ScalarFeatures.SlashCountIsMultiplicity | api/risk_scoring_api.py:30 | The depth is the multiplicity of `/` in the resource text. |
| ScalarFeatures.SlashCountAppend | api/risk_scoring_api.py:30 | The depth of a concatenation is the sum of the depths. |
| ScalarFeatures.TypeCodeRange | api/risk_scoring_api.py:28-29 | Codes lie in [0, number of distinct types), and equal types get equal codes. |
| ScalarFeatures.FirstRowCodeZero | api/risk_scoring_api.py:28-29 | The first input row's type gets code 0. |
| ScalarFeatures.TypeCodesDense | api/risk_scoring_api.py:28-29 | Every code below the number of distinct types is used by some row. |
| ScalarFeatures.TypeCodesFirstSeen | api/risk_scoring_api.py:28-29 | One row's code is below another's exactly when its type first occurs earlier in input order. |
| Seqs.Distinct | api/risk_scoring_api.py:28 | `unique()` holds each value of the column once, and no other values. |
| Seqs.DistinctFirstSeenOrder | api/risk_scoring_api.py:28 | `unique()` lists values in the order in which they first occur. |
| Seqs.DistinctHead | api/risk_scoring_api.py:28 | The first value of a non-empty column is the first unique value. |
| Seqs.IndexOf | api/risk_scoring_api.py:28 | The `enumerate` position of a value is its first occurrence. |
| Seqs.Positions | api/risk_scoring_api.py:38 | The positions of the elements that satisfy the predicate: all of them, each once, in ascending order. |
| Seqs.Filter | api/risk_scoring_api.py:38 | A boolean mask keeps exactly the rows that satisfy it, in table order and with their multiplicity: kept row i is the input row at the i-th satisfying position. |
| Seqs.CountZero | api/risk_scoring_api.py:51 | A count is 0 exactly when no element satisfies the predicate. |
| Ordering.Insert | api/risk_scoring_api.py:35 | Inserting into a time-sorted table keeps it sorted and adds exactly that row. |
| Ordering.SortByTime | api/risk_scoring_api.py:35 | The result is sorted by ascending timestamp and is a permutation of the input. |
| FailureWindow.FailuresOf | api/risk_scoring_api.py:38 | The failure table holds the `login_failure` rows of the sorted table in table order, one per such row: failure i is the row at the i-th failure position. |
| FailureWindow.WindowCount | api/risk_scoring_api.py:51 | The count of times in the window is at most the number of times, and 0 exactly when no time lies in [t − 1 hour, t). |
| FailureWindow.Users | api/risk_scoring_api.py:44 | The user column of the failure rows. |
| FailureWindow.GroupPositions | api/risk_scoring_api.py:44 | A user's group: exactly the positions of that user's rows, ascending. |
| FailureWindow.GroupTimes | api/risk_scoring_api.py:45 | A user's timestamp series has one entry per row of that user's group. |
| FailureWindow.GroupTimesStep | api/risk_scoring_api.py:45 | Adding a row to the table extends its user's series by that row's time and leaves the other series unchanged. |
| FailureWindow.FailureCounts | api/risk_scoring_api.py:41-54 | The counter column has one entry per failure row. |
| FailureWindow.WindowCountAt | api/risk_scoring_api.py:48-51 | The inner count for position i is the number of the group's times in [t − 1 hour, t), where t is time i. |
| FailureWindow.GroupCounts | api/risk_scoring_api.py:48-52 | The list built for a group has one count per time, each that time's window count. |
| FailureWindow.GroupCountIsSpec | api/risk_scoring_api.py:48-52 | Count j of a group is the specified counter value of the failure row at the group's position j. |
| FailureWindow.AssignAt | api/risk_scoring_api.py:54 | `.loc[group.index] = counts` writes count j at the group's position j and leaves every other entry unchanged. |
| FailureWindow.GroupWritten | api/risk_scoring_api.py:54 | After one more group has been written, the rows of the users processed so far hold their final counts and all other rows hold 0. |
| FailureWindow.CountGroup | api/risk_scoring_api.py:44-54 | One iteration of the outer loop preserves that invariant for one more user. |
| FailureWindow.CountFailures | api/risk_scoring_api.py:41-54 | The nested loops fill the column with exactly the specified counts. |
| FailureWindow.GroupWindowCount | api/risk_scoring_api.py:44-51 | Counting a user's series in the window equals counting that user's rows whose time lies in the window. |
| FailureWindow.FailureCountMeaning | api/risk_scoring_api.py:44-54 | A failure's count is the number of the same user's failures with t − 1 hour ≤ time < t. |
| FailureWindow.FailureCountBelowUserTotal | api/risk_scoring_api.py:49-51 | A failure never counts itself, so its count is at most the user's failure total minus 1. |
| FailureWindow.ThreeFailuresExample | api/risk_scoring_api.py:49-51 | Failures at 0, 40 and 70 minutes get counts 0, 1 and 1. |
| FailureWindow.WindowBoundaries | api/risk_scoring_api.py:50-51 | A time exactly one hour earlier is counted; a time equal to t is not. |
| Join.FailureTable | api/risk_scoring_api.py:58 | The projected counter table holds each failure's timestamp, user and count, in order. |
| Join.MatchPositions | api/risk_scoring_api.py:57-61 | The positions of the counter rows whose key matches: all of them, ascending. |
| Join.MatchingCounts | api/risk_scoring_api.py:57-61 | One count per matching counter row, in counter-table order: count i is that of the i-th matching row. |
| Join.JoinRow | api/risk_scoring_api.py:57-62 | A left row always contributes at least one merged row. |
| Join.LeftJoin | api/risk_scoring_api.py:57-62 | The merge never has fewer rows than the left table. |
| Join.JoinRowContents | api/risk_scoring_api.py:57-62 | A left row with k ≥ 1 matches appears k times, copy i carrying the count of the i-th matching counter row. With no match it appears once, with 0. |
| Join.LeftJoinPrefix | api/risk_scoring_api.py:57-61 | The merge of a prefix of the left table is a prefix of the merge. |
| Join.JoinBlock | api/risk_scoring_api.py:57-61 | Left row i's merged rows form one block, after those of the rows before it. |
| Join.LeftJoinCovers | api/risk_scoring_api.py:57-61 | Every left row appears in the merge. |
| Join.JoinedRowOrigin | api/risk_scoring_api.py:57-62 | Every merged row is a left row, carrying either 0 with no match or the count of a matching counter row. |
| Join.LeftJoinSorted | api/risk_scoring_api.py:57-61 | Merging a time-sorted table keeps it sorted. |
| Join.JoinRowSingle | api/risk_scoring_api.py:57-61 | A row with at most one match contributes exactly one merged row. |
| Join.LeftJoinOneToOne | api/risk_scoring_api.py:57-61 | With at most one match per left row, the merge has as many rows as the left table, and row i belongs to left row i. |
| Join.SharedKeyCount | api/risk_scoring_api.py:57-62 | A row that shares its key with exactly one failure gets that failure's count, whether or not it is the failure. |
| Join.LabelledCount | api/risk_scoring_api.py:54 | The count written for a given row label, or 0 if there is none. |
| Join.RowJoin | api/risk_scoring_api.py:54-62 | The join by row label: one output row per input row, with the row's own count or 0. |
| Join.RowAgrees | api/risk_scoring_api.py:57-61 | A row whose key matches exactly the counter rows carrying its label, at most one of them, gets the same count from both joins. |
| Join.RowAgreesUnmatched | api/risk_scoring_api.py:61-62 | A row with no matching counter row gets 0 from both joins. |
| Join.RowAgreesMatched | api/risk_scoring_api.py:57-61 | A row with exactly one matching counter row gets that row's count from both joins. |
| Join.RowJoinAgrees | api/risk_scoring_api.py:57-61 | If keys pick out exactly the labelled rows and no key is shared, the key merge equals the join by label. |
| Join.KeyJoinBorrowsCount | api/risk_scoring_api.py:57-61 | A file access sharing `(timestamp, user)` with a failure takes that failure's count 1 when merged by key, and keeps 0 when joined by label. |
| Population.IpCount | api/risk_scoring_api.py:64-65 | The address count is at most the table size, and 0 exactly when no row has that address. |
| Population.UserCount | api/risk_scoring_api.py:68-70 | The user's row count is at most the table size, and 0 exactly when the user has no row. |
| Population.Features | api/risk_scoring_api.py:64-80 | The vector of a merged row copies its six own columns, has an address count between 1 and the table size, and a user rate between 1/15 and size/15. |
| Population.Project | api/risk_scoring_api.py:73-80 | One feature vector per merged row. |
| Population.PopulationBounds | api/risk_scoring_api.py:64-70 | `ip_event_count` is the number of merged rows with this address, between 1 and the table size. `user_event_rate` is the user's merged-row count over 15, between 1/15 and size/15. |
| Population.PopulationConsistent | api/risk_scoring_api.py:64-70 | Rows with the same address have the same address count; rows with the same user have the same rate. |
| Population.ProjectedColumns | api/risk_scoring_api.py:73-80 | The other six columns are copied unchanged from the merged row. |
| Population.ThreeRowsOneAddress | api/risk_scoring_api.py:64-70 | An address appearing three times gets 3 on each of its rows. A lone address gets 1. A user with two rows gets 2/15. |
| Extraction.SortedRows | api/risk_scoring_api.py:35 | The sorted table has one row per event. |
| Extraction.CounterTable | api/risk_scoring_api.py:38-58 | One counter entry per failure row. |
| Extraction.Table | api/risk_scoring_api.py:35-62 | The merged table is at least as long as the batch (that every event's row appears in it is `Extraction.TableCoversEvents`). |
| Extraction.Extract | api/risk_scoring_api.py:21-80 | Fails exactly when some timestamp does not parse, with the ISO 8601 message. Otherwise returns at least as many vectors as events, one per merged row (`Extraction.TableCoversEvents` shows every event's row is among them). |
| Extraction.ExtractFeatures | api/risk_scoring_api.py:21-80 | Running the pipeline with the in-place counter gives exactly `Extract`. |
| Extraction.WindowChain | api/risk_scoring_api.py:38-54 | Counting the sorted failure rows in a user's window equals counting that user's login failures in the window across the whole batch. |
| Extraction.KeyChain | api/risk_scoring_api.py:38-61 | The counter rows matching a key are as many as the batch's login failures with that timestamp and user. |
| Extraction.TableFailedLogins | api/risk_scoring_api.py:35-62 | Each merged row's `failed_logins_last_1h` is the number of its user's failures in [t − 1 hour, t) when the batch has a failure with its `(timestamp, user)`, and 0 otherwise. This holds for non-failure rows too. |
| Extraction.TableSorted | api/risk_scoring_api.py:35-61 | The output rows are in ascending timestamp order. |
| Extraction.TableCoversEvents | api/risk_scoring_api.py:35-62 | Every input event's derived row appears in the merged table. |
| Extraction.TableRowOrigin | api/risk_scoring_api.py:35-61 | Every output row is the derived row of some input event. |
| Extraction.UniqueKeysAtMostOneMatch | api/risk_scoring_api.py:38-61 | With unique failure keys, no sorted row matches two counter rows. |
| Extraction.UniqueKeysKeepRows | api/risk_scoring_api.py:57-61 | With unique failure keys, the output has exactly one row per input event, row i being sorted row i. |
| Extraction.SingleEventWindow | api/risk_scoring_api.py:49-51 | A lone failure has no earlier failure in its window. |
| Extraction.SingleEventTable | api/risk_scoring_api.py:22-62 | One event yields one merged row, with type code 0 and no failed logins. |
| Extraction.SingleRowProject | api/risk_scoring_api.py:64-70 | One merged row has address count 1 and rate 1/15. |
| Extraction.SingleEvent | api/risk_scoring_api.py:22-70 | A one-event batch that parses yields exactly one vector: its scalar columns, code 0, 0 failed logins, address count 1 and rate 1/15. |
| Extraction.SampleDepth | tests/test_api.py:16 | `/secure/data` has depth 2. |
| Extraction.SampleColumns | api/risk_scoring_api.py:27-32 | A login failure on `/secure/data` at 10 o'clock on a Monday has hour 10, depth 2, not privileged, not weekend. |
| Extraction.SampleRequest | tests/test_api.py:11-17 | The test suite's sample request yields the vector (10, 0, 2, 0, false, 0, 1, 1/15). |
| Classification.Classify | api/risk_scoring_api.py:95 | The label is Anomaly exactly when the score exceeds 0.5. |
| Classification.ClassifyMonotone | api/risk_scoring_api.py:95 | Raising the score never turns Anomaly into Normal. |
| Classification.ThresholdIsNormal | api/risk_scoring_api.py:95 | A score of exactly 0.5 is Normal, because the comparison is strict; 0.51 is Anomaly. |

## Left out

- General `pd.to_datetime` parsing (line 23): dates without a time, a space instead of `T`, fractional seconds, time zones and the other accepted spellings. Only the ISO 8601 extended form `YYYY-MM-DDThh:mm:ss` with a four-digit year is modelled. Other texts are treated as unparseable.
- Sub-second precision: timestamps are whole seconds. Within that, the datetime64[ns] range is modelled exactly.
- The sort at line 35 is pandas' default quicksort, which is not stable. The model uses a stable insertion sort, so its order among rows with equal timestamps is one admissible order, not a prediction of pandas' order. The failure counts do not depend on that order; only the output order among ties does.
- `groupby("user")` visits users in sorted key order. The model visits them in first-seen order. Groups write disjoint rows, so the counter column is the same.
- Row labels: `.loc[group.index]` writes by index label. The model writes by position in the failure table, which is the same because the labels in this table are unique.
- The IEEE-754 division at line 70 is modelled as exact division of reals.
- Integers are unbounded: `astype(int)` at line 62 is modelled without a width, and no overflow is modelled.
- The HTTP handlers `score_log` and `explain_risk` (lines 82-122): FastAPI routing, model loading, XGBoost prediction, SHAP attribution and the mapping of exceptions to HTTP errors (status 400 in `score_log`, line 99; status 500 in `explain_risk`, lines 121-122). The risk score itself is an input of `Classification.Classify`.
- The test expectation of status 422 for an invalid timestamp (tests/test_api.py:38-39). It concerns the HTTP layer, whose handler maps the `ValueError` to 400. The model stops at the `ValueError`.
- api/semantic_search_api.py, query/semantic_search.py, pipeline/pdf_to_pgvector.py and the data-generation scripts are not part of this model. They consist of embedding models, databases, PDF handling and random data generation.
