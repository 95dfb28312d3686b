# HealthTracker core in Dafny

This project models the server core of HealthTracker, a personal
health-tracking web application. Users set one daily goal (workout,
minutes, calories, water, sleep and wake-up times, blood pressure,
heart rate), log any number of activity entries, and read two derived
views:

- today's comparison of the logged totals against the goal;
- weekly statistics with rounded means.

The model covers these parts:

- `Records`: the goal and entry records and the schema bounds.
- `Validation`: the request-body validators of the four write routes. Each reports every failing field, not just the first. It also builds the records that a validated body turns into.
- `GoalStore` and `EntryStore`: the per-user routes over an abstract store.
  - The store is a sequence in natural (insertion) order, with fresh ids.
  - Goals carry the unique (userId, date) index, so a second create on a date answers `DuplicateDate`. Entries have no such index.
  - Update and delete act only on a record with the given id that the caller owns. A well-formed id of a record the caller does not own answers `NotFound`; a malformed id answers `ServerError`, because the store's cast of it fails.
- `Aggregation`: today's comparison and the weekly statistics.
- `Workouts`, `ClockTime` and `ClientHelpers`:
  - the workout enum;
  - the `HH:MM` time pattern the validators use;
  - the client's workout option list, its icon table, and `formatTime`.
- `Seqs`: generic sums, filtering, first-match search and a stable sort. Mongo's `find`, `findOne` and `sort` are expressed with these.

The routes' inputs are parameters:

- the authenticated user id;
- today's window (`dayStart`, `dayEnd`);
- the weekly cut-off (`since`);
- the creation time `now`;
- the outcome of the ISO-8601 check and of `new Date(text)` for a date;
- whether a path id is a well-formed ObjectId (`None` when it is not).

Behaviour of the code that is easy to misread:

- The goal index is unique on the exact (userId, date) instant, not on the calendar day. Two goals at different times of one day are both accepted. Today's comparison then shows one of them; `findOne` without a sort does not say which.
- The goal update route does not validate `date` but applies the body as it stands, so an update can move a goal to another date. Landing on a date the goal's owner already has a goal for violates the unique index. The update route has no duplicate-key branch, so it answers 500 rather than a conflict.
- An ISO-valid date string that `new Date` cannot turn into an instant makes the store's cast fail. The route answers 500.

## Model

| member | source | states |
|---|---|---|
| Workouts.Parse | server/models/Goal.js:13-17 | a workout name is accepted exactly when it is one of the nine enum names, and the parsed workout carries that name back |
| Workouts.ParseName | server/models/Entry.js:13-17 | every workout's name parses back to that workout |
| Workouts.EnumNamesAreNames | server/routes/goals.js:42 | the validator's list has nine distinct names, the i-th naming the i-th workout, and every workout is listed |
| ClientHelpers.OptionsMatchServerEnum | client/src/utils/helpers.js:25-35 | the client's option list is the server's enum list: the same nine distinct names in the same order |
| ClientHelpers.OptionsAreIconKeys | client/src/utils/helpers.js:13-35 | the icon table has a key exactly for each listed option |
| ClientHelpers.IconsDistinct | client/src/utils/helpers.js:13-23 | no two workouts share an icon |
| ClientHelpers.SplitColon | client/src/utils/helpers.js:38 | the hours and minutes pieces are colon-free, they are consecutive pieces of the input, and minutes is undefined exactly when the input has no colon, in which case hours is the whole input; otherwise hours ends at the first colon and minutes ends at the next colon or the end |
| ClientHelpers.ParseIntPrefix | client/src/utils/helpers.js:39 | `parseInt` yields a number exactly when a digit follows the optional sign, and NaN otherwise; the number is the value of the leading digit run, negated after a minus sign |
| ClientHelpers.ParseIntOfText | client/src/utils/helpers.js:39 | `parseInt` reads back the decimal text of any number, with or without a minus sign, whatever non-digit text follows it |
| ClientHelpers.JsRemTwelve | client/src/utils/helpers.js:41 | `hour % 12` differs from the hour by a multiple of twelve and lies in [0, 12) for a non-negative hour and in (-12, 0] for a negative one, which fixes it uniquely |
| ClientHelpers.FormatTime | client/src/utils/helpers.js:37-43 | `formatTime` is total: every reading ends in ` AM` or ` PM`, and an hour piece that `parseInt` cannot read shows as `12:` with AM |
| ClientHelpers.FormatTimeOfValid | client/src/utils/helpers.js:37-43 | for every accepted time string the display hour is between 1 and 12 and converts back to the 24-hour hour; the text is that hour, the original two minute digits, and PM exactly for hours 12 and above |
| ClientHelpers.FormatTimeTwelve | client/src/utils/helpers.js:40-41 | midnight displays as `12:mm AM` and noon as `12:mm PM` |
| ClientHelpers.DisplayHourOfMultiple | client/src/utils/helpers.js:41 | `hour % 12 \|\| 12` maps every non-negative multiple of twelve to 12 |
| ClientHelpers.FormatTimeMalformed | client/src/utils/helpers.js:37-43 | every string that has no colon and does not start with a number displays the NaN fallback `12:undefined AM` |
| ClockTime.ParseTime | server/routes/entries.js:131-132 | a time string is read exactly when it matches the `HH:MM` pattern, and the time read is a valid clock time |
| ClockTime.ParseRender | server/routes/goals.js:46-47 | every valid time, padded or not, is accepted and reads back unchanged |
| ClockTime.AcceptedIsRendered | server/routes/goals.js:46-47 | every accepted string is exactly the rendering of the time it denotes: the pattern admits nothing else |
| Validation.FailingGoalFields | server/routes/goals.js:53-56 | the reported fields are exactly the listed fields whose rule fails, each reported once |
| Validation.FailingEntryFields | server/routes/entries.js:135-138 | the reported fields are exactly the listed fields whose rule fails, each reported once |
| Validation.GoalFieldLists | server/routes/goals.js:77-86 | create checks every field, update checks every field but `date`, and neither lists a field twice |
| Validation.ValidateGoalCreate | server/routes/goals.js:40-50 | a field is reported exactly when its required rule fails; the report holds all failing fields, each once |
| Validation.ValidateGoalUpdate | server/routes/goals.js:77-86 | a field is reported exactly when it is not `date` and its optional rule fails |
| Validation.ValidateEntryCreate | server/routes/entries.js:126-132 | a field is reported exactly when it is one of the six checked fields and its required rule fails |
| Validation.ValidateEntryUpdate | server/routes/entries.js:156-161 | a field is reported exactly when it is one of the five checked fields and its optional rule fails |
| Validation.GoalFieldRulesRelate | server/routes/goals.js:78-86 | a present key gets the same verdict from the optional and the required rule; a missing key passes only the optional one |
| Validation.GoalUpdateRulesMatchCreate | server/routes/goals.js:77-86 | a non-date field fails update exactly when it is present and fails create, so every body create accepts, update accepts |
| Validation.GoalCreateAccepted | server/routes/goals.js:40-56 | an empty error list means every field is present and meets its rule: an ISO date, an enum workout, integral bounded numbers, pattern times |
| Validation.GoalUpdateAccepted | server/routes/goals.js:77-92 | an empty error list means every present field meets its rule |
| Validation.EntryCreateAccepted | server/routes/entries.js:126-138 | an empty error list means all six fields are present and meet their rules |
| Validation.EntryUpdateAccepted | server/routes/entries.js:156-167 | an empty error list means every present field meets its rule |
| Validation.GoalOfBody | server/routes/goals.js:58-64 | the stored goal carries every submitted value unchanged, belongs to the caller, and meets the goal schema |
| Validation.EntryOfBody | server/routes/entries.js:140-146 | the stored entry carries every submitted value unchanged, belongs to the caller, and meets the entry schema |
| Validation.ApplyGoalUpdate | server/routes/goals.js:95-99 | each present key overwrites its field and each missing key keeps it, including a `userId` key, which hands the goal to that user; id and creation time never change; the schema bounds survive |
| Validation.ApplyEntryUpdate | server/routes/entries.js:170-174 | each present key overwrites its field and each missing key keeps it, including a `userId` key, which hands the entry to that user; id and creation time never change; the schema survives |
| Validation.GoalUpdateIdempotent | server/routes/goals.js:95-99 | applying the same update twice gives the same goal as applying it once |
| Validation.EmptyGoalUpdateIsIdentity | server/routes/goals.js:77-99 | an empty body passes update validation and changes nothing |
| Responses.Response.Status | server/routes/goals.js:52-73 | validation failures and the duplicate date answer 400, a missing record 404, a store failure 500; a read, update or delete answers 200 and a create 201 |
| GoalStore.IndexOwned | server/routes/goals.js:95-97 | the record found has the given id and belongs to the caller; none is found exactly when no such record exists |
| GoalStore.List | server/routes/goals.js:11 | the caller's goals, exactly those, each as often as stored, latest date first |
| GoalStore.GetByDate | server/routes/goals.js:21-36 | an unparseable date is a 500; otherwise the answer is one of the caller's goals at that instant, or NotFound exactly when there is none |
| GoalStore.Create | server/routes/goals.js:52-73 | invalid bodies answer 400 with the validator's list; a taken date answers DuplicateDate; the create succeeds exactly when the body is valid, its date denotes an instant and the caller has no goal at that instant, and then the goal is appended with a fresh id and the caller as owner; every failure leaves the store unchanged and validity is preserved |
| GoalStore.Update | server/routes/goals.js:88-109 | 400 on an invalid body; 404 exactly when the caller owns no goal with that id; 500 for a malformed id or date or a collision with another goal of the (possibly new) owner at the resulting date; it succeeds exactly when none of these holds, and then only that goal is replaced by the updated one; validity is preserved |
| GoalStore.Delete | server/routes/goals.js:113-126 | 404 exactly when the caller owns no goal with that id; otherwise exactly that goal is removed; validity is preserved |
| GoalStore.RemovePreservesValid | server/routes/goals.js:116 | removing one goal keeps ids distinct, the schema, and the unique index |
| GoalStore.CreateThenGetByDate | server/routes/goals.js:20-66 | a goal just created is what GET by its date returns |
| GoalStore.SecondCreateSameDateConflicts | server/routes/goals.js:63-70 | after one create succeeds, a second valid create for the same user and instant answers DuplicateDate and changes nothing |
| GoalStore.GetByDateIsTheOnlyMatch | server/models/Goal.js:65-66 | under the unique index, the goal returned by date is the caller's only goal at that instant |
| GoalStore.UpdateOntoTakenDateIsServerError | server/routes/goals.js:95-108 | moving a goal onto an instant its (possibly new) owner already uses answers 500 and changes nothing |
| GoalStore.OtherUsersUntouched | server/routes/goals.js:95-116 | update keeps every other user's goal in place, and delete keeps every other user's goal |
| GoalStore.ForeignGoalNotFound | server/routes/goals.js:95-120 | an existing goal of another user is NotFound for both update and delete, and nothing changes |
| GoalStore.DeleteTwiceNotFound | server/routes/goals.js:113-120 | once a goal is deleted, deleting it again answers NotFound |
| EntryStore.IndexOwned | server/routes/entries.js:170-171 | the record found has the given id and belongs to the caller; none is found exactly when no such record exists |
| EntryStore.List | server/routes/entries.js:12 | the caller's entries, exactly those, each as often as stored, latest date first |
| EntryStore.GetByDate | server/routes/entries.js:21-37 | an unparseable date is a 500; otherwise one of the caller's entries at that instant, or NotFound exactly when there is none |
| EntryStore.Create | server/routes/entries.js:126-152 | invalid bodies answer 400 with the validator's list; a valid body with a usable date is always created, with a fresh id; validity is preserved |
| EntryStore.Update | server/routes/entries.js:156-184 | 400 on an invalid body; 404 exactly when the caller owns no entry with that id; it succeeds exactly when the body is valid, the id and any date are well formed and the caller owns the entry, and then only that entry is replaced; validity is preserved |
| EntryStore.Delete | server/routes/entries.js:188-201 | 404 exactly when the caller owns no entry with that id; otherwise exactly that entry is removed; validity is preserved |
| EntryStore.RemovePreservesValid | server/routes/entries.js:191 | removing one entry keeps ids distinct and the schema |
| EntryStore.CreateAlwaysAddsOne | server/models/Entry.js:40-41 | every accepted create adds exactly the new entry to the caller's entries on that date, whatever was already logged |
| EntryStore.TwoCreatesSameDateBothStored | server/models/Entry.js:40-41 | two accepted creates for one user and instant both succeed and leave two entries with distinct ids on that date |
| EntryStore.ForeignEntryNotFound | server/routes/entries.js:169-194 | an existing entry of another user is NotFound for both update and delete, and nothing changes |
| EntryStore.DeleteTwiceNotFound | server/routes/entries.js:188-196 | once an entry is deleted, deleting it again answers NotFound |
| Aggregation.Compare | server/routes/entries.js:60-83 | totals are absent exactly when there are no entries and otherwise are the sums; the comparison exists exactly when totals and a goal do; a metric is achieved exactly when actual reaches goal; `entry` is the first entry |
| Aggregation.TodayEntries | server/routes/entries.js:49-53 | exactly the caller's entries inside today's inclusive window, each as often as stored, newest creation first |
| Aggregation.TodayGoal | server/routes/entries.js:54-57 | a goal of the caller inside today's window, or none exactly when there is no such goal |
| Aggregation.TodayComparison | server/routes/entries.js:41-88 | the `entry` shown is one of the caller's stored entries inside today's window, and is null exactly when there is none; the goal shown is one of the caller's goals in the window; the comparison exists exactly when both an entry and a goal are shown |
| Aggregation.TodayComparisonAgainstStore | server/routes/entries.js:41-88 | totals are the sums over all of today's entries, whatever the store order; `entry` has the greatest stored `createdAt` of them; the comparison exists exactly when today has an entry and a goal |
| Aggregation.TotalsNonNegative | server/routes/entries.js:61-64 | with the schema in force, the totals are never negative |
| Aggregation.JsRound | server/routes/entries.js:110 | `Math.round` gives the integer within one half of its argument, halves rounding up |
| Aggregation.ProjectAll | server/routes/entries.js:101-106 | one row per entry, in order, each the entry's date, minutes, water and workout |
| Aggregation.ProjectAllPermutation | server/routes/entries.js:101-106 | reordering the entries reorders their rows the same way, so the rows of a sorted week are those of the week in store order |
| Aggregation.Summarize | server/routes/entries.js:101-118 | one row per entry and a count equal to the number of entries; with no entries both means are zero; otherwise the minutes mean is rounded to the nearest integer and the water mean to the nearest tenth |
| Aggregation.WeekEntries | server/routes/entries.js:96-99 | exactly the caller's entries dated on or after the cut-off, each as often as stored, in ascending date order |
| Aggregation.Weekly | server/routes/entries.js:91-123 | the count equals the number of rows, every row is dated on or after the cut-off, and the rows are in ascending date order |
| Aggregation.WeeklyAgainstStore | server/routes/entries.js:91-123 | the weekly view counts every matching entry; its rows are exactly the projections of those entries, each once, in ascending date order, with no upper bound on the date; the means are taken over all of them, and the water mean is a whole number of tenths |
| Aggregation.WeeklyRowsAgainstStore | server/routes/entries.js:96-106 | the weekly rows are, as a multiset, the projections of the caller's entries dated on or after the cut-off, in ascending date order |
| Aggregation.WeeklyMeansAgainstStore | server/routes/entries.js:109-118 | the count is the number of matching entries and the rounded means are those of all of them, in whatever order the store keeps them |
| Aggregation.AverageMinutesWithinRange | server/routes/entries.js:110 | the rounded mean of the minutes lies between the least and the greatest minutes of the week |
| Aggregation.TodayExample | server/routes/entries.js:60-83 | 30 and 20 minutes with 1.0 and 0.5 litres against a goal of 40 minutes and 2.0 litres: totals 50 and 1.5, minutes achieved, water not |
| Aggregation.TodayGoalWithoutEntries | server/routes/entries.js:61-82 | a goal without entries gives no totals, no comparison and no latest entry |
| Aggregation.WeeklyExample | server/routes/entries.js:108-112 | minutes 10, 20, 30 average to 20, and water 1.0, 1.5, 2.0 averages to 1.5 |
| Aggregation.WeeklyEmpty | server/routes/entries.js:109-117 | with no entries the list is empty, both means are zero and the count is zero |
| Seqs.SumRealPermutation | server/routes/entries.js:61-64 | a sum of reals does not depend on the order of the entries |
| Seqs.SumIntPermutation | server/routes/entries.js:61-64 | a sum of integers does not depend on the order of the entries |
| Seqs.FilterMembers | server/routes/entries.js:50-53 | a query keeps exactly the records that satisfy its condition |
| Seqs.FilterAppend | server/models/Entry.js:40-41 | querying after an append gives the earlier answer plus the new record when it matches |
| Seqs.SortBy | server/routes/entries.js:99 | the result is ordered by the key and is a permutation of the input |
| Seqs.SortedHeadIsLeast | server/routes/entries.js:53 | the head of a sorted sequence has the least key of all its elements |

## Left out

- Authentication middleware: the caller's id is a parameter.
- The clock: today's window, the weekly cut-off and the creation time are parameters. The server's time zone and `setHours`/`setDate` arithmetic are left to the caller.
- The ISO-8601 grammar and `new Date(text)`: a date is reduced to whether it passes the ISO check and which instant, if any, it denotes.
- JSON type mismatches and string-encoded numbers: body numbers are JSON numbers (reals), and `isInt` means an integral value below 10^21 (larger numbers print in exponent form, which `isInt` rejects).
- Floating point: water and its sums are exact reals, so rounding artefacts of IEEE doubles are not modelled.
- Aggregation.Summarize: the water mean is rounded exactly, not with double-precision arithmetic.
- ClientHelpers.ParseIntPrefix: leading whitespace, which `parseInt` skips, and precision loss for very long digit runs are not modelled.
- ClientHelpers.FormatTimeOfValid: stated only for strings the time pattern accepts. For other strings, `FormatTime` is total, but the full reading is stated only for strings with no colon and no leading number (`FormatTimeMalformed`).
- Validation.ApplyGoalUpdate: a partial `bloodPressure` object in an update is merged field by field. Mongo replaces the whole nested object, which the schema validators may then reject.
- The body keys `_id` and `createdAt`, on create and on update, and a `userId` that is not a well-formed ObjectId, are not modelled. Both create routes spread the whole body into the new record (server/routes/goals.js:58-61, server/routes/entries.js:140-143), and both update routes pass it to the store.
- GoalStore.Create: a body `_id` equal to an existing goal's id raises the same duplicate-key error as a taken date, and the route answers it with the duplicate-date 400 even on a free date. The model's `DuplicateDate` covers only the (userId, date) collision.
- EntryStore.Create: a body `_id` equal to an existing entry's id makes the insert fail, and the route answers 500. The model always creates a valid body with a usable date.
- Validation.GoalOfBody: `createdAt` is the creation instant `now`. Mongoose keeps a `createdAt` supplied in the body instead, so the "most recently created" entry of today's comparison is only the one with the greatest stored `createdAt`, which such a body can choose.
- Validation.EntryOfBody: as for goals, `createdAt` is `now`, while a `createdAt` key in the body would be stored instead.
- Connectivity and other store failures that turn any route into a 500 are not modelled; only the 500s the inputs determine are.
- Concurrency: two simultaneous goal creates are modelled as two creates in sequence, and the unique-index invariant decides the second.
- Mongo's order among records with equal sort keys is unspecified. The model uses a stable sort, and the contracts promise nothing about ties.
- `formatDate`, `getTodayDateString`, the React pages and the HTTP client services are UI code and are not part of this model.
- Response messages other than the duplicate-date text, and the `updatedAt` timestamp, are not modelled.
