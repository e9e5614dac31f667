# Skiff time tracking: the time-log consistency engine in Dafny

This project models the core of a Laravel time-tracking API. Users own clients, clients have projects, and time logs are recorded against projects. The model covers:

- the timer: `start` and `stop` on a project;
- manual entries and their overlap checks (`store`, `update`, `destroy`, `show`);
- the two MySQL triggers that derive a log's `hours` from its times, and the domains of the `hours` and `tag` columns;
- the read side: `index`'s filters and order, `getTotalHours` with a running timer, and `getReportData`'s three views;
- the scheduled command that notifies users who worked 8 hours today, once per user and day;
- the ownership-scoped create, read, update and delete of clients and projects, including the guarded client delete and the cascading, all-or-nothing project delete.

The database is the class `Tables.Database`:

- `clients` and `projects` are maps from id to record;
- `project_time_logs` is a sequence in id order;
- three counters hand out auto-increment ids;
- `Valid()` holds four invariants, and every state-changing action preserves them:
  - client emails are lower-case and unique per owner;
  - every project's client belongs to the project's owner;
  - every log's project and client belong to the log's owner;
  - every log's `hours` is what the triggers derive.

Other conventions:

- Each controller action is a `method`. It takes the authenticated user and, where the source reads the clock, `now`.
- An action returns `Ok` or a `Refusal`. `Tables.HttpStatus` maps each `Refusal` to its status code (404, 400, 422 or 500).
- Times are whole seconds since the epoch (UTC), and dates are day numbers.
- `hours` is an integer number of hundredths of an hour.
- Request fields are optional values that are already parsed.

Modules, one per source concern:

| module | file | concern |
|---|---|---|
| `Wrappers` | wrappers.dfy | `Option` |
| `Text` | text.dfy | `strtolower`, `empty()` |
| `Calendar` | calendar.dfy | `DATE()`, `startOfDay`, `endOfDay` |
| `Migration` | migration.dfy | the `project_time_logs` row, column domains, triggers |
| `Tables` | tables.dfy | records, outcomes, the `Database` class, lookups |
| `TimeLogController` | time_log_controller.dfy | `start`, `stop`, `store`, `show`, `update`, `destroy` |
| `TimeLogQueries` | time_log_queries.dfy | `index` filters and order, `getTotalHours` |
| `TimeLogReport` | time_log_report.dfy | `getReportData` |
| `WorkHourCheck` | work_hour_check.dfy | `app:check-work-hour-for-user` |
| `ClientController` | client_controller.dfy | client `store`, `show`, `update`, `destroy` |
| `ProjectController` | project_controller.dfy | project `store`, `show`, `update`, `destroy` |
| `TimeLogFindings` | time_log_findings.dfy | where the time-log actions break the one-running-log design, and the corrected rules |

Where the code and its documentation disagree, the model follows the code:

- `update` validates `end_time` but never assigns it. A log's end therefore changes only through `stop`. When both times are sent, the overlap test uses the stored end, not the requested one.
- The update trigger never clears `hours`. It only re-derives `hours` when the end is set.
- `store` without an end refuses only a start that falls strictly inside another log of the user. A second running log can therefore still be created, for example one that starts at or before the start of a running log.
- `start` refuses only when the same project has a running log, whoever owns it; a running log on another project does not block it.
- A start-only `update` of a closed log runs no end check, because no `end_time` was sent. It runs no overlap query either, because the second branch needs a running log. The start can therefore move past the log's own end, giving negative hours, or into another log of the user.
- The four points above on `update`'s end, `store`, `start` and `update`'s start break the design's rules: at most one running log per user, an end not before the start, no overlaps. Or they leave a log running that the request meant to close. "## Findings" gives a scenario for each and the corrected rule. The actions themselves follow the code.
- `getReportData` filters both date bounds on `start_time`. `index` and `getTotalHours` filter the end date on `end_time`.

## Model

| member | source | states |
|---|---|---|
| Calendar.DayOf | app/Http/Controllers/V1/ProjectTimeLogController.php:552 | the day returned is the one whose 86400 seconds contain the timestamp |
| Calendar.WithinDays | app/Http/Controllers/V1/ProjectTimeLogController.php:542-563 | a timestamp is at or after `startOfDay(a)` iff its day is at or after `a`; it is at or before `endOfDay(b)` iff its day is at or before `b` |
| Text.LowerChar | app/Http/Controllers/V1/ClientController.php:86 | the result is never a capital; a small letter either was already small or is the capital shifted by 32; any other character is kept |
| Text.Lower | app/Http/Controllers/V1/ClientController.php:86 | same length, no capitals, and each character is the lower-cased one at the same position |
| Text.LowerIdempotent | app/Http/Controllers/V1/ClientController.php:86 | lower-casing twice equals lower-casing once |
| Text.LowerKeepsLowerCase | app/Http/Controllers/V1/ClientController.php:242 | a string without capitals is its own lower-cased form |
| Migration.ParseTag | database/migrations/2025_05_26_144832_create_project_time_logs_table.php:26 | the enum accepts exactly `billable` and `non-billable`, and the tag it yields is spelled as the input |
| Migration.ParseTagName | database/migrations/2025_05_26_144832_create_project_time_logs_table.php:26 | parsing a tag's spelling gives the tag back |
| Migration.TagValue | app/Http/Controllers/V1/ProjectTimeLogController.php:101 | the stored tag is null iff the request has none, and otherwise is spelled as the request's value |
| Migration.WholeMinutes | database/migrations/2025_05_26_144832_create_project_time_logs_table.php:42 | the result is the whole number of minutes between the times, truncated toward zero, in both directions |
| Migration.RoundHalfAway | database/migrations/2025_05_26_144832_create_project_time_logs_table.php:42 | the result is the integer nearest `n / d`; a tie rounds away from zero |
| Migration.CentiHours | database/migrations/2025_05_26_144832_create_project_time_logs_table.php:42 | MySQL's double rounding (four decimal places, then two) still gives the hundredth strictly nearest `m / 60` hours |
| Migration.NearestHundredthUnique | database/migrations/2025_05_26_144832_create_project_time_logs_table.php:42 | the nearest hundredth is unique |
| Migration.CentiHoursClosedForm | database/migrations/2025_05_26_144832_create_project_time_logs_table.php:42 | for `m >= 0` whole minutes the derived hours are `(5m + 1) / 3` hundredths |
| Migration.DerivedHoursIgnoreSeconds | database/migrations/2025_05_26_144832_create_project_time_logs_table.php:42 | an end moved back to the last whole minute derives the same hours |
| Migration.DerivedHoursMonotone | database/migrations/2025_05_26_144832_create_project_time_logs_table.php:54 | a later end never derives fewer hours |
| Migration.OneHourIsOneHundred | database/migrations/2025_05_26_144832_create_project_time_logs_table.php:42 | exactly 3600 seconds derive 1.00 hour |
| Migration.ApplyTriggers | database/migrations/2025_05_26_144832_create_project_time_logs_table.php:36-57 | with an end, `hours` is re-derived from the row's times; without one it is left as it was (null at insert, not cleared on update); no other field changes |
| Migration.ApplyTriggersIdempotent | database/migrations/2025_05_26_144832_create_project_time_logs_table.php:48-57 | firing the trigger again on its own output changes nothing |
| Migration.Write | database/migrations/2025_05_26_144832_create_project_time_logs_table.php:25-57 | a write succeeds iff the derived hours fit `decimal(5,2)`, and it then stores the triggers' output |
| Migration.ShortIntervalsFit | database/migrations/2025_05_26_144832_create_project_time_logs_table.php:25 | every closed interval shorter than 1000 hours is written, with hours between 0 and 999.99 |
| Migration.WriteDerives | database/migrations/2025_05_26_144832_create_project_time_logs_table.php:41-55 | a written row that had null hours while running holds the derived-hours invariant |
| Tables.Database.constructor | database/migrations/2025_05_26_144832_create_project_time_logs_table.php:15 | empty tables, all invariants hold, and every id counter starts at 1 |
| Tables.FirstWhere | app/Http/Controllers/V1/ProjectTimeLogController.php:83-85 | an un-ordered `first()` is taken to return the lowest-id row that satisfies the filter (an assumption, see "## Left out"), or nothing iff no row does |
| Tables.FindLog | app/Http/Controllers/V1/ProjectTimeLogController.php:321-323 | finds a row with the given id and owner, or reports correctly that none exists |
| Tables.RemoveKeepsAscending | app/Http/Controllers/V1/ProjectTimeLogController.php:427 | deleting a row keeps the table in id order |
| Tables.AppendKeepsAscending | app/Http/Controllers/V1/ProjectTimeLogController.php:94-102 | inserting a row with the next id keeps the table in id order |
| TimeLogController.ConflictsClosedIsSharedInstant | app/Http/Controllers/V1/ProjectTimeLogController.php:231-237 | for a non-empty candidate and an existing log that is running or of positive length, the SQL conflict condition holds iff the two share an instant |
| TimeLogController.EntryOverlapsIffShared | app/Http/Controllers/V1/ProjectTimeLogController.php:231-252 | for a candidate with `start < end`, and when every row of the table is running or of positive length: `store` refuses the entry iff it shares an instant with one of the user's logs (both directions) |
| TimeLogController.ZeroLengthRowStillRefuses | app/Http/Controllers/V1/ProjectTimeLogController.php:231-237 | a zero-length row covers no instant, yet an entry that strictly contains it is refused |
| TimeLogController.RunningLog | app/Http/Controllers/V1/ProjectTimeLogController.php:135-137 | finds a running log of the project whoever owns it, or nothing iff the project has none |
| TimeLogController.TimerRow | app/Http/Controllers/V1/ProjectTimeLogController.php:94-102 | the new row is running, started at `now`, and has null hours |
| TimeLogController.Start | app/Http/Controllers/V1/ProjectTimeLogController.php:71-109 | 404 for a project the caller does not own; 400 when the project has a running log; 500 iff the tag is not an enum value; success iff the caller owns the project, the project has no running log and the tag is valid, and then exactly one row is appended (running, `start = now`, the project's client, the next id) and nothing else changes |
| TimeLogController.Stop | app/Http/Controllers/V1/ProjectTimeLogController.php:123-165 | 404 for a project the caller does not own; 400 with no running log; 400 when any of the user's logs starts later than the running one; 500 when the derived hours overflow; otherwise only that row changes, closed at `now` with derived hours |
| TimeLogController.Store | app/Http/Controllers/V1/ProjectTimeLogController.php:179-269 | refuses in source order: validation (422), not owned (404), start in the future, end before start (equal allowed), end in the future, overlap (closed or open test), then a failing insert (500), the only refusal left once every check passes; succeeds iff none applies, appending one row with the derived hours; on refusal nothing changes |
| TimeLogController.Show | app/Http/Controllers/V1/ProjectTimeLogController.php:282-301 | returns the caller's row with that id, or Not Found iff the caller has none |
| TimeLogController.ChangedRow | app/Http/Controllers/V1/ProjectTimeLogController.php:332-392 | `start` and `description` are taken from the request only when non-empty; `tag` only when it is `billable` or `non-billable`; every other field, including the end, is kept |
| TimeLogController.UnknownTagIgnored | app/Http/Controllers/V1/ProjectTimeLogController.php:390-392 | a missing or unknown tag keeps the stored tag |
| TimeLogController.UpdateKeepsEnd | app/Http/Controllers/V1/ProjectTimeLogController.php:342-394 | no update request changes a log's end |
| TimeLogController.UpdateIgnoresOwnRow | app/Http/Controllers/V1/ProjectTimeLogController.php:357-377 | a log that is the user's only row never overlaps, so a log is never tested against itself |
| TimeLogController.Update | app/Http/Controllers/V1/ProjectTimeLogController.php:318-401 | 404 for another user's or a missing log; then, in source order, start in the future, end before the new start, end in the future, overlap (the two query cases only, own id excluded), failing write; otherwise only that row changes, to the changed row with re-derived hours |
| TimeLogController.Destroy | app/Http/Controllers/V1/ProjectTimeLogController.php:413-433 | 404 with no change for a row the caller does not own; otherwise exactly that row is removed |
| TimeLogQueries.Matching | app/Http/Controllers/V1/ProjectTimeLogController.php:34-48 | a row is selected iff it is the user's and passes every present filter (project, client, start day at or after, end day at or before; a running row fails the end filter) |
| TimeLogQueries.MatchingCount | app/Http/Controllers/V1/ProjectTimeLogController.php:34-48 | each selected row occurs in the selection as often as in the table, and an unselected one not at all |
| TimeLogQueries.MatchingAppend | app/Http/Controllers/V1/ProjectTimeLogController.php:454-468 | a row appended to the table is selected after the others iff it matches |
| TimeLogQueries.InsertByStart | app/Http/Controllers/V1/ProjectTimeLogController.php:50 | inserting into a latest-first sequence keeps it latest-first and adds exactly that row |
| TimeLogQueries.SortByStartDesc | app/Http/Controllers/V1/ProjectTimeLogController.php:50 | the result is a permutation of its input, ordered latest start first |
| TimeLogQueries.Index | app/Http/Controllers/V1/ProjectTimeLogController.php:32-51 | exactly the matching rows, each as often as in the table, ordered latest start first |
| TimeLogQueries.Latest | app/Http/Controllers/V1/ProjectTimeLogController.php:472 | `orderBy('start_time', 'desc')->first()` returns a matching row that no other matching row starts after |
| TimeLogQueries.SumHoursAppend | app/Http/Controllers/V1/ProjectTimeLogController.php:470 | `SUM(hours)` over two parts adds up |
| TimeLogQueries.SumHoursBoundsEach | app/Http/Controllers/V1/ProjectTimeLogController.php:470 | with non-negative hours, every row's hours are at most the sum |
| TimeLogQueries.SumHoursNonNegative | app/Http/Controllers/V1/ProjectTimeLogController.php:470 | with non-negative hours the sum is non-negative |
| TimeLogQueries.RunningSeconds | app/Http/Controllers/V1/ProjectTimeLogController.php:472-476 | elapsed seconds are non-negative, and positive only when the latest matching row is running |
| TimeLogQueries.TotalHours | app/Http/Controllers/V1/ProjectTimeLogController.php:452-483 | the total is within half a hundredth of the exact stored sum (null counts 0) plus the running timer's elapsed time |
| TimeLogQueries.TotalHoursNonNegative | app/Http/Controllers/V1/ProjectTimeLogController.php:470-483 | with no negative stored hours the total is never negative, whatever `now` is |
| TimeLogQueries.TotalCoversEachRow | app/Http/Controllers/V1/ProjectTimeLogController.php:470-480 | without a running timer and with no negative hours, the total is at least each matching row's hours |
| TimeLogQueries.SumOfAppendedRow | app/Http/Controllers/V1/ProjectTimeLogController.php:470 | a row appended by `start` or `store` adds its stored hours to the sum iff it matches the filters |
| TimeLogQueries.TotalWithoutTimer | app/Http/Controllers/V1/ProjectTimeLogController.php:470-480 | when the latest matching row is closed, or nothing matches, the total is exactly the stored sum |
| TimeLogQueries.EndDateFilterIgnoresTimer | app/Http/Controllers/V1/ProjectTimeLogController.php:466-477 | with an end-date filter no running row matches, so no elapsed time is ever added |
| TimeLogQueries.NinetyMinuteTimer | app/Http/Controllers/V1/ProjectTimeLogController.php:470-480 | a lone timer started 90 minutes ago totals 1.50 hours |
| TimeLogReport.InReportByDay | app/Http/Controllers/V1/ProjectTimeLogController.php:541-566 | a row is reported iff it is the user's, has an end, and its start day lies between the given dates |
| TimeLogReport.ReportLogs | app/Http/Controllers/V1/ProjectTimeLogController.php:550-566 | exactly the reported rows are selected |
| TimeLogReport.FindGroup | app/Http/Controllers/V1/ProjectTimeLogController.php:566 | finds the group row with the log's (date, project, client), or reports correctly that there is none |
| TimeLogReport.AddLog | app/Http/Controllers/V1/ProjectTimeLogController.php:566 | folding a log into the groups keeps one row per distinct key |
| TimeLogReport.Group | app/Http/Controllers/V1/ProjectTimeLogController.php:566 | no two groups have the same (date, project, client); `GroupCovers` and `GroupTotals` state the rest of `GROUP BY` |
| TimeLogReport.GroupCovers | app/Http/Controllers/V1/ProjectTimeLogController.php:566 | every reported log's (date, project, client) has a group, and every group has a log with its triple |
| TimeLogReport.GroupTotals | app/Http/Controllers/V1/ProjectTimeLogController.php:553-566 | each group's `SUM(hours)` is the sum over exactly the logs of its own (date, project, client) |
| TimeLogReport.GroupSum | app/Http/Controllers/V1/ProjectTimeLogController.php:553-566 | for any selection (all rows, or one date, project or client), the group sums equal the log sums |
| TimeLogReport.GroupKeys | app/Http/Controllers/V1/ProjectTimeLogController.php:566 | a key occurs among the groups iff some reported log has it |
| TimeLogReport.InsertByDay | app/Http/Controllers/V1/ProjectTimeLogController.php:566-567 | inserting into rows ordered latest day first keeps that order and adds exactly that row |
| TimeLogReport.SortByDayDesc | app/Http/Controllers/V1/ProjectTimeLogController.php:567 | a permutation of its input, latest day first |
| TimeLogReport.ReportQueryAnswerable | app/Http/Controllers/V1/ProjectTimeLogController.php:553-567 | the database can always answer the report query: the groups sorted by day meet the specification of the rows `getReportData` takes |
| TimeLogReport.SumRowsPermutation | app/Http/Controllers/V1/ProjectTimeLogController.php:566-567 | the database's choice of row order does not change any sum |
| TimeLogReport.IndexOf | app/Http/Controllers/V1/ProjectTimeLogController.php:577 | `isset` finds the entry for a key, or reports correctly that there is none |
| TimeLogReport.AddTo | app/Http/Controllers/V1/ProjectTimeLogController.php:577-599 | `+=` on an insertion-ordered PHP array: a present key keeps the length, a new key is appended at the end with `h` |
| TimeLogReport.AddToSpec | app/Http/Controllers/V1/ProjectTimeLogController.php:577-599 | after `+=` the keys stay distinct, the key is present, only its entry grows by `h`, and every earlier entry keeps its key and position |
| TimeLogReport.AddToTotal | app/Http/Controllers/V1/ProjectTimeLogController.php:583-599 | each `+=` raises a view's total by exactly the added hours |
| TimeLogReport.GetReportData | app/Http/Controllers/V1/ProjectTimeLogController.php:541-606 | whatever row order the database returns: each view lists each key of the reported logs exactly once, with those logs' hours; `by_date` runs from latest to earliest; and all three views total the hours of every reported log, so their grand totals are equal |
| TimeLogReport.FoldRows | app/Http/Controllers/V1/ProjectTimeLogController.php:569-599 | after the loop each view describes the rows read (distinct keys, each with the sum of its rows, every row's key present, the view totalling all rows), and `by_date` runs from latest to earliest |
| TimeLogReport.ReportTotals | app/Http/Controllers/V1/ProjectTimeLogController.php:569-605 | entries that describe the query's rows describe the reported logs |
| TimeLogReport.Finish | app/Http/Controllers/V1/ProjectTimeLogController.php:600-605 | after the last row each of the three views summarises the reported logs, and `by_date` is descending |
| WorkHourCheck.DayTotalAppend | app/Console/Commands/CheckWorkHourForUser.php:35-40 | a user's daily sum over two parts adds up |
| WorkHourCheck.RunningLogAddsNothing | app/Console/Commands/CheckWorkHourForUser.php:36 | a running row (null hours) changes no daily total |
| WorkHourCheck.TotalNeedsLog | app/Console/Commands/CheckWorkHourForUser.php:35-39 | a non-zero daily total implies the user has a row that started today |
| WorkHourCheck.UsersToday | app/Console/Commands/CheckWorkHourForUser.php:38-39 | each user with a row that started today appears exactly once |
| WorkHourCheck.Over | app/Console/Commands/CheckWorkHourForUser.php:40 | `HAVING total_hours >= 8` keeps a user iff their daily total reaches 800 hundredths (inclusive) |
| WorkHourCheck.QueryAnswerable | app/Console/Commands/CheckWorkHourForUser.php:35-40 | the grouped query always has an answer that meets its specification |
| WorkHourCheck.Newly | app/Console/Commands/CheckWorkHourForUser.php:47-49 | a user is dispatched iff they are selected and their key for today is absent |
| WorkHourCheck.Marked | app/Console/Commands/CheckWorkHourForUser.php:47-50 | the keys set are exactly `(user, today)` for the selected users |
| WorkHourCheck.NotifiedOncePerDay | app/Console/Commands/CheckWorkHourForUser.php:47-51 | a later run the same day dispatches no one an earlier run covered, whatever their total is now |
| WorkHourCheck.SecondRunIsQuiet | app/Console/Commands/CheckWorkHourForUser.php:47-51 | running twice on the same selection dispatches nothing the second time |
| WorkHourCheck.AllCachedQuiet | app/Console/Commands/CheckWorkHourForUser.php:48 | when every selected user's key is cached, no one is dispatched |
| WorkHourCheck.OnlyOverThreshold | app/Console/Commands/CheckWorkHourForUser.php:40-52 | a user is dispatched iff their total today is at least 8 hours and their key is absent |
| WorkHourCheck.NewlyAppend | app/Console/Commands/CheckWorkHourForUser.php:46-51 | one more user adds a dispatch iff their key is absent |
| WorkHourCheck.Handle | app/Console/Commands/CheckWorkHourForUser.php:32-53 | the cache gains exactly today's keys of the selected users; the queue gains exactly the users whose key was absent, in query order; with no one selected, nothing changes |
| TimeLogFindings.SecondRunningLogByStore | app/Http/Controllers/V1/ProjectTimeLogController.php:239-261 | for a user who has a running log and no row starting before `now`, a manual entry at `now` without an end succeeds, leaving two running logs |
| TimeLogFindings.AcceptedOpenEntry | app/Http/Controllers/V1/ProjectTimeLogController.php:239-245 | when none of the user's rows starts before `now`, an entry at `now` without an end passes the open overlap test |
| TimeLogFindings.IntendedAgreesWithClosed | app/Http/Controllers/V1/ProjectTimeLogController.php:231-237 | the corrected overlap test agrees with the code for entries that have an end |
| TimeLogFindings.IntendedRefusesSecondRunning | app/Http/Controllers/V1/ProjectTimeLogController.php:239-245 | the corrected test refuses an entry without an end whenever the user has a running log |
| TimeLogFindings.IntendedEntryKeepsOneRunning | app/Http/Controllers/V1/ProjectTimeLogController.php:239-261 | a row the corrected test accepts keeps at most one running log per user |
| TimeLogFindings.TimerBesideAnotherProject | app/Http/Controllers/V1/ProjectTimeLogController.php:83-108 | for a user with a timer running on another project, starting a timer on a project without one succeeds, leaving two running logs |
| TimeLogFindings.IntendedStartKeepsOneRunning | app/Http/Controllers/V1/ProjectTimeLogController.php:83-91 | a timer the corrected user-wide guard admits is the user's only running log |
| TimeLogFindings.UpdateLeavesTimerRunning | app/Http/Controllers/V1/ProjectTimeLogController.php:342-394 | updating a running log with an end succeeds, and the row is still running |
| TimeLogFindings.IntendedChangedRow | app/Http/Controllers/V1/ProjectTimeLogController.php:342-392 | the corrected update stores a non-empty requested end and otherwise changes what the code changes |
| TimeLogFindings.IntendedUpdateDerivesHours | app/Http/Controllers/V1/ProjectTimeLogController.php:342-394 | a corrected update with an end, once written, has that end and the hours of the requested interval |
| TimeLogFindings.UpdateStartPastEnd | app/Http/Controllers/V1/ProjectTimeLogController.php:332-394 | moving a closed log's start one minute past its end, with nothing else sent, succeeds and stores a row ending before its start, with hours of -0.02 |
| TimeLogFindings.IntendedRefusesStartPastEnd | app/Http/Controllers/V1/ProjectTimeLogController.php:309-311 | the corrected checks, run on the row as it would be stored, refuse a start moved past a closed log's end |
| TimeLogFindings.IntendedUpdateHoursNonNegative | app/Http/Controllers/V1/ProjectTimeLogController.php:309-311 | a closed row the corrected checks admit is written with non-negative hours |
| TimeLogFindings.IntendedUpdateKeepsOneRunning | app/Http/Controllers/V1/ProjectTimeLogController.php:309-311 | an update the corrected checks admit keeps at most one running log per user |
| ClientController.Store | app/Http/Controllers/V1/ClientController.php:83-133 | 422 on failed validation; 422 when the caller already has a client with the lower-cased email; otherwise exactly one client is added under the next id, owned by the caller, with the email lower-cased; on refusal nothing changes |
| ClientController.Show | app/Http/Controllers/V1/ClientController.php:157-175 | returns the client iff the caller owns it, Not Found otherwise |
| ClientController.ChangedClient | app/Http/Controllers/V1/ClientController.php:227-247 | `name`, `email` (lower-cased) and `contact_person` are taken from the request only when non-empty; the owner is kept |
| ClientController.EmptyChangeIsIdentity | app/Http/Controllers/V1/ClientController.php:227-249 | a request with no non-empty field leaves the client as it was |
| ClientController.Update | app/Http/Controllers/V1/ClientController.php:212-256 | 404 with no change for a client the caller does not own; 422 with no change when another client of the caller has the email; otherwise only that client changes, to the changed record |
| ClientController.Destroy | app/Http/Controllers/V1/ClientController.php:286-315 | 404 for a client the caller does not own; 422 while any project references it; 500 while a time log still references it (foreign key); otherwise exactly that client is removed; on refusal nothing changes |
| ProjectController.ParseStatus | app/Http/Controllers/V1/ProjectController.php:103 | the rule accepts exactly `active` and `completed`, each mapped to its status |
| ProjectController.Store | app/Http/Controllers/V1/ProjectController.php:98-154 | 422 on failed validation; 422 when the client is not the caller's; otherwise exactly one project is added under the next id, with the caller as owner and the given client |
| ProjectController.Show | app/Http/Controllers/V1/ProjectController.php:178-198 | returns the project iff the caller owns it, Not Found otherwise |
| ProjectController.ChangedProject | app/Http/Controllers/V1/ProjectController.php:252-275 | title, description and deadline are taken when non-empty; status only when `active` or `completed`; the client when given; the owner is kept |
| ProjectController.Update | app/Http/Controllers/V1/ProjectController.php:237-284 | 404 for a project the caller does not own; 422 with no change for a client not owned by the caller; otherwise only the project row changes, and no time log (nor its `client_id`) changes |
| ProjectController.WithoutProject | app/Http/Controllers/V1/ProjectController.php:331 | keeps exactly the rows of other projects, in the same id order |
| ProjectController.WithoutProjectCount | app/Http/Controllers/V1/ProjectController.php:331 | exactly the project's rows are removed, counted |
| ProjectController.Destroy | app/Http/Controllers/V1/ProjectController.php:314-345 | 404 for a project the caller does not own; a failure inside the transaction rolls back and changes nothing (500); otherwise the project and every log of that project are removed, and nothing else changes |

## Left out

- HTTP and framework plumbing are not modelled: JSON envelopes, messages, `auth()->id()` (the user is a parameter), pagination (`paginate(10)`) and eager-loaded relations.
- Validator rule parsing is not modelled. The `email` format rule, `date` parsing and `strtotime` are not modelled either: request times arrive as whole seconds and dates as day numbers.
- Request fields reach the model parsed. Which values count as absent depends on how the source reads each field:
  - the model takes request values as they are after Laravel's default `ConvertEmptyStringsToNull` middleware (the HTTP kernel is not part of this model, and the model assumes it is left on), so a sent `""` arrives as None, like an absent field;
  - `start` and `store` read `description`, `tag` and `end_time` with `isset`, so any other sent string, `"0"` included, is stored as sent (`Text.OrEmpty`, `Migration.TagValue`);
  - the `update` actions read each field with `has` and `!empty()`, so a description, name, email, contact person or title of `"0"` is ignored (`Text.Filled`);
  - times, ids and the `index` filters that are `empty()` (such as `"0"`) arrive as None.
- A report date of `"0"` is not modelled. `report` and `reportExport` pass it on because it is set; `getReportData` skips parsing it because it is `empty()`, yet still writes it into the SQL, where MySQL's comparison of `start_time` with `"0"` decides the filter. The model's report dates are day numbers or None.
- The clock is the parameter `now`, taken as one instant per request, and all dates are UTC.
- The users table, `AuthController`, the mail job `SendDailyNotification`, the PDF export and its view, routing and rate limits are not part of this model.
- The interpolated SQL strings and their injection risk are not modelled. Each query is a predicate over the rows.
- Concurrency between requests is not modelled. Neither is the cache entry's expiry at the end of the day: the cache is a set keyed by (user, day).
- Floating point is not modelled. `getTotalHours` is computed exactly in hundredths and seconds and then rounded once. PHP's float sum and `round()` on binary fractions can differ from this by one hundredth near a tie.
- TimeLogReport.GetReportData, TimeLogReport.FoldRows: the views are summed exactly in hundredths. PHP adds each group's decimal `total_hours` string into a float with `+=`, so an entry can differ from the exact decimal in its last binary digits. The three grand totals are equal only in exact arithmetic.
- `strtolower` is modelled for ASCII letters only, as in PHP 8.2 and later.
- The case-insensitive collation is modelled only where the source relies on it: email lookups compare lower-cased values. MySQL's case-insensitive matching of enum spellings is not modelled, so a tag such as `Billable` fails the insert.
- Column widths of the `clients` and `projects` tables other than the validated 255 characters are not modelled.
- Stored hours are taken as what the triggers derive. Rows written by other means (seeders, factories) are not modelled.
- In PHP's `in_array`, a non-string tag can match loosely. This loose matching is not modelled: request values are strings.
- Tables.FirstWhere: an un-ordered `->first()` has no order in SQL. The model assumes the row with the lowest id. This decides which log `stop` closes, and whose start the later-row guard compares, when a project has two running logs (possible, see "## Findings").
- TimeLogController.EntryOverlapsIffShared: the law is proved only for a candidate with `start < end` and a table whose closed rows all have positive length. `store` accepts `end == start`, and for such rows the SQL test is not "shares an instant"; `TimeLogController.ZeroLengthRowStillRefuses` shows the difference.
- TimeLogController.Start, TimeLogController.Store, TimeLogController.Update: follow the code, including the four departures from the design listed in "## Findings". The corrected rules stand beside them in `TimeLogFindings` and are not wired into the actions.
- TimeLogQueries.RunningSeconds: follows Carbon 2, where `diffInSeconds` is an absolute value. Carbon 3 returns a signed difference, which would subtract the elapsed time.
- TimeLogQueries.Latest: the database breaks ties between rows with the same start. The model picks one of them, and the lemmas assume only that no matching row starts later.
- TimeLogReport.GetReportData: the order of `by_project` and `by_client` is first appearance in the database's row order. The contract does not state this order. It states the keys, the sums and the order of `by_date`.
- TimeLogReport.GetReportData: takes the rows of `DB::select` as a parameter. They may be any arrangement of the groups that the `ORDER BY` allows, because the query does not fix an order within a date.
- WorkHourCheck.Handle: takes the selected users of `DB::select` as a parameter. The parameter is specified as: each user whose total reaches 8 hours, once, in any order. `WorkHourCheck.QueryAnswerable` shows that such a list always exists.
- ProjectController.Destroy: an exception inside the transaction is the parameter `fails`. The model does not say what raises it.

## Findings

| source | as written | input that shows it | evidently intended | confidence | as-written member | corrected member |
|---|---|---|---|---|---|---|
| app/Http/Controllers/V1/ProjectTimeLogController.php:239-245 | without an end, `store` refuses only a start strictly inside another log of the user | a user starts a timer at `now`, then sends `store` with `start_time` = `now` and no `end_time`: it succeeds | an absent end is unbounded, so an open entry conflicts with every running log and every log that ends after its start; at most one running log per user | not executed | TimeLogFindings.SecondRunningLogByStore | TimeLogFindings.IntendedEntryKeepsOneRunning |
| app/Http/Controllers/V1/ProjectTimeLogController.php:83-85 | `start` looks for a running log on the same project only | a user with a timer running on one project starts a timer on another: it succeeds | a user runs at most one timer across all projects | not executed | TimeLogFindings.TimerBesideAnotherProject | TimeLogFindings.IntendedStartKeepsOneRunning |
| app/Http/Controllers/V1/ProjectTimeLogController.php:342-394 | `update` validates `end_time` but never assigns it | a running log of the caller, update with `end_time` = `now` and nothing else: 200, and the log is still running | a non-empty requested end is stored and `hours` is derived from it | not executed | TimeLogFindings.UpdateLeavesTimerRunning | TimeLogFindings.IntendedUpdateDerivesHours |
| app/Http/Controllers/V1/ProjectTimeLogController.php:332-377 | with `start_time` alone on a closed log, `update` checks only that the start is not in the future | a closed log of the caller ending at `e`, update with `start_time` = `e` + 60 and nothing else, at `now` >= `e` + 60: 200, and the row ends before it starts, with hours -0.02 | the stored end is not before the stored start, and the stored interval meets no other log of the user | not executed | TimeLogFindings.UpdateStartPastEnd | TimeLogFindings.IntendedUpdateHoursNonNegative |
