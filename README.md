# weather-alert-2: a Dafny model of alert evaluation, the alert store and the schedulers

The weather alert service has three parts:

- An HTTP backend holds alerts in two MySQL tables. An alert is a location, a weather parameter, a comparison operator and a threshold.
- An evaluator reads the alert list over HTTP. It asks a weather provider for the reading at each alert's location and applies the alert's comparison to it. It then writes a status for every alert it could evaluate.
- A scheduler runs the evaluator every five minutes, plus once ten seconds after it starts.

This model covers:

- The backend's request handlers:
  - the checks of `POST /api/alerts`, `DELETE /api/alerts/:id`, `PUT /api/alerts/:id/status` and `GET /api/weather`, and their effect on the tables;
  - the two read queries, `GET /api/alerts` (each alert with its latest status) and `GET /api/alerts/status` (every triggered status row).
- The evaluator's pass, from `src/services/alertEvaluator.js`.
- Both schedulers' start/stop state machines.

Modules, one per concern:

- `Wire` (wire.dfy): JSON request values and JavaScript falsiness. It has `parseInt` and `parseFloat` as JavaScript defines them: leading white space, sign, the `0x` prefix, `Infinity`, fraction and exponent. It also has decimal rendering of integers (`${id}`), the weather provider's reply, and the body of a status write.
- `Ordering` (ordering.dfy): `ORDER BY key DESC` as a stable sort. It is proved sorted and a permutation.
- `AlertTables` (alert_tables.dfy): the rows of `alerts` and `alert_status` and the invariant the handlers keep:
  - at most three alerts;
  - unique ids;
  - admissible fields;
  - every status row refers to a stored alert.

  It also defines the two read queries as functions of the tables.
- `RequestChecks` (request_checks.dfy): each handler's guard chain as a function giving the row to insert or the error reply.
- `AlertStore` (alert_store.dfy): the class `Store`. It holds the tables as sequence fields, and its methods apply the decisions of `RequestChecks`. The module also has lemmas that the decisions keep the table invariant.
- `AlertEvaluator` (alert_evaluator.dfy): `evaluateCondition` and `evaluateSingleAlert` as functions, and the loop methods `EvaluateAllAlerts` and `UpdateAlertStatuses`. The methods are proved against the specification functions `EvaluationPass` and `StatusWrites`.
- `Scheduling` (scheduling.dfy): what both schedulers share:
  - the cron job object;
  - the start/stop state machine as a value;
  - the summary a run reports;
  - the `getStatus` view.
- `BackendScheduler` and `SrcScheduler`: the two `Scheduler` classes. The backend one reads its cron expression from the environment. The `src` one has it fixed and its runs call the modelled evaluator.
- `Integration` (integration.dfy): the evaluator run against the backend. Its alerts are the rows of `GET /api/alerts`, and its writes meet the checks of `PUT /api/alerts/:id/status`.

Inputs that are not computed here are parameters:

- the weather provider: `Weather` gives the reply to each request of a pass, by the request's position and its coordinates, so two requests for one location may get different replies; `GET /api/weather` makes one request and takes its reply as a function of the coordinates;
- the reply of the alert list fetch;
- whether the backend accepted each status write of a pass, by the write's position in the pass (`Answers`);
- the clock: `created_at`, `checked_at`, and the next firing time of the cron job. The `checked_at` a status write stores is an `Option`: None stands for a body `checked_at` that denotes no date, on which the handler's date conversion throws;
- the `CRON_EXPRESSION` override;
- whether the provider is configured;
- the outcome of an evaluation pass of `backend/src/services/alertEvaluator.js`. That file is not part of this model.

Numbers are `real`, and `=` is exact equality.

The repository has two schema variants: one for the backend and one for the `src` server. The model follows `backend/src/scripts/reset-db.js`: `alert_status` has a `current_value` column and no unique key on `alert_id`, so every accepted status write appends a row. The schema in `src/config/database.js` has `UNIQUE (alert_id)` and no `current_value` column. Under it every status insert of the handler fails, since the insert names `current_value`.

Some preconditions about a pass are stated through named predicates (`EveryAlertFails`) or over one alert's `EvaluateSingleAlert`, not as quantifiers over `Outcomes(alerts, weather)[i]`. With Z3 4.16, the quantified form let the solver derive a contradiction from the axioms of function-typed parameters on some random seeds, which would have made those lemmas hold vacuously.

The reply message of `GET /api/alerts/status` (backend/src/server.js:255) calls its rows the alerts that are currently triggered, that is, the alerts whose latest status is triggered. The query returns every triggered status row, and the model follows the query. The difference is a finding below.

## Model

| member | source | states |
|---|---|---|
| `Wire.ParseInt` | backend/src/server.js:186 | parseInt gives a number exactly when the text has at least one digit after the white space, the sign and any `0x` prefix. The result's sign follows the sign character. |
| `Wire.ParseFloat` | backend/src/server.js:363-364 | parseFloat is NaN exactly when neither a decimal prefix nor `Infinity` follows the sign. It gives an infinity only for an `Infinity` prefix. |
| `Wire.TrimStart` | backend/src/server.js:186 | The result is a suffix of the input with all leading ECMAScript white space removed, and it does not start with white space. |
| `Wire.DigitPrefixLength` | backend/src/server.js:186 | The longest prefix made of digits of the radix: all its characters are digits, and the next character is not. |
| `Wire.NatTextValue` | src/services/alertEvaluator.js:149 | The decimal text of a natural number denotes that number. |
| `Wire.AllDigitsRead` | backend/src/server.js:186 | A string made only of digits is read to its end. |
| `Wire.IntTextParts` | src/services/alertEvaluator.js:149 | The decimal text of an integer has a minus sign exactly when the integer is negative, has no hex prefix, and its unsigned part is the magnitude's digits. |
| `Wire.IntTextParses` | backend/src/server.js:186 | parseInt reads the decimal text of every integer back as that integer. |
| `Wire.DigitRunRead` | backend/src/server.js:186 | A run of digits followed by a non-digit is read up to its end. |
| `Wire.DigitLedText` | backend/src/server.js:186 | Text that starts with a digit has no white space or sign to strip. |
| `Wire.NatTextThenTextShape` | backend/src/server.js:186 | parseInt sees a number's decimal text followed by non-digit text as unsigned decimal. |
| `Wire.NatTextThenText` | backend/src/server.js:255 | parseInt reads a number's decimal text followed by non-digit text (not `x`) back as that number. |
| `Wire.DigitsAreDecimalPrefix` | backend/src/server.js:363-364 | parseFloat's decimal prefix of a string of digits is the number the digits denote. |
| `Wire.IntTextParsesAsFloat` | backend/src/server.js:363-364 | parseFloat reads the decimal text of every integer back as that integer. |
| `Wire.HexValue` | backend/src/server.js:186 | A character's digit value is below 16, and below 10 exactly for `0`–`9`. |
| `Wire.DigitChar` | src/services/alertEvaluator.js:149 | The character written for a digit reads back as that digit. |
| `Wire.NatText` | src/services/alertEvaluator.js:149 | A number's decimal text is non-empty and made of decimal digits. |
| `Wire.IntText` | src/services/alertEvaluator.js:149 | An integer's decimal text is non-empty. |
| `Ordering.InsertDesc` | backend/src/server.js:164 | Inserting into a descending sequence keeps it descending and adds exactly that element. |
| `Ordering.SortDesc` | backend/src/server.js:164 | `ORDER BY ... DESC` gives a descending permutation of the rows. |
| `Ordering.SortDescMembers` | backend/src/server.js:247 | Sorting keeps exactly the rows it was given, and as many of them. |
| `AlertTables.FindAlert` | backend/src/server.js:196-204 | The lookup by id finds a stored alert with that id, and finds nothing exactly when there is none. |
| `AlertTables.WithoutAlert` | backend/src/server.js:207 | `DELETE FROM alerts WHERE id = ?` leaves exactly the alerts with another id. |
| `AlertTables.WithoutStatusesOf` | backend/src/server.js:206-207 | The cascade leaves exactly the status rows of other alerts. |
| `AlertTables.WithoutAlertUnique` | backend/src/server.js:207 | Deleting keeps primary keys unique. |
| `AlertTables.WithoutAlertRemovesOne` | backend/src/server.js:201-207 | Deleting a stored id removes exactly one row. |
| `AlertTables.WithoutAbsentAlert` | backend/src/server.js:207 | Deleting an absent id changes nothing. |
| `AlertTables.StatusesOf` | backend/src/server.js:158-160 | The status rows of one alert are exactly those with its id. |
| `AlertTables.LatestCheck` | backend/src/server.js:159-163 | `MAX(checked_at)` over one alert's rows is attained by one of them and bounds them all. |
| `AlertTables.PairWith` | backend/src/server.js:156-158 | The join pairs the alert with exactly the given status rows. |
| `AlertTables.CheckedAt` | backend/src/server.js:159 | `s.checked_at = t` keeps exactly the rows checked at `t`. |
| `AlertTables.ListingForMembers` | backend/src/server.js:156-163 | One alert's part of the listing is exactly its latest pairings, or one row with nulls when it has no status. |
| `AlertTables.JoinLatestMembers` | backend/src/server.js:143-163 | The join's rows are exactly the latest pairings of stored alerts. |
| `AlertTables.AlertListing` | backend/src/server.js:143-164 | `GET /api/alerts` is sorted by `created_at` descending and is a permutation of the join. Its rows are exactly the stored alerts, each paired with a status of maximal `checked_at`, or with nulls when it has none. |
| `AlertTables.EveryAlertListed` | backend/src/server.js:156-163 | Every stored alert appears in the listing. |
| `AlertTables.ListingForSingle` | backend/src/server.js:156-163 | Without a tie at its latest `checked_at`, an alert contributes exactly one row, carrying that alert. |
| `AlertTables.AlertListingCount` | backend/src/server.js:143-164 | When no alert has a tie at its latest `checked_at`, the join lists each alert once, in table order, and the listing has exactly as many rows as there are alerts. |
| `AlertTables.TiedLatestChecksRepeatAlert` | backend/src/server.js:158-163 | Two status rows of one alert with the same latest `checked_at` list the alert twice. |
| `AlertTables.JoinStatus` | backend/src/server.js:244 | The inner join of one status row gives exactly the stored alerts with its id. |
| `AlertTables.Unvalued` | backend/src/server.js:234-243 | The status columns the query selects, position by position. |
| `AlertTables.JoinTriggeredMembers` | backend/src/server.js:244-245 | The join's rows are exactly the triggered status rows joined to their stored alert. |
| `AlertTables.TriggeredListing` | backend/src/server.js:232-247 | `GET /api/alerts/status` is sorted by `checked_at` descending and is a permutation of the join, so each joined row appears as often as the join gives it. Its rows are exactly the triggered status rows of stored alerts, not only each alert's latest. |
| `AlertTables.JoinStatusSingle` | backend/src/server.js:244 | Under unique ids, a status row of a stored alert has exactly one join partner. |
| `AlertTables.JoinStatusAbsent` | backend/src/server.js:244 | A status row of no stored alert joins nothing. |
| `AlertTables.JoinTriggeredCount` | backend/src/server.js:244-245 | The join has one row per triggered status row. |
| `AlertTables.TriggeredListingCount` | backend/src/server.js:244-253 | On valid tables, `count` is the number of triggered status rows, one per triggered write. |
| `AlertTables.CurrentlyTriggeredRows` | backend/src/server.js:231-246 | Keeps exactly the listing rows whose status is triggered. |
| `AlertTables.CurrentlyTriggered` | backend/src/server.js:226-255 | The alerts triggered now are exactly the stored alerts whose latest status is triggered. |
| `AlertTables.TriggeredListingReportsStaleRows` | backend/src/server.js:232-255 | An alert triggered at time 1 and clear at time 2 is still reported by `GET /api/alerts/status`. No alert is currently triggered. |
| `RequestChecks.ValidateNewAlert` | backend/src/server.js:55-85 | The body passes exactly when lat and lon are non-zero numbers in range, parameter is non-empty text, operator is one of the five, and threshold is a number. The missing-fields error is exactly the falsy/undefined case, out-of-range lat is the latitude error, and an empty description is stored as null. |
| `RequestChecks.DecideCreate` | backend/src/server.js:55-107 | Creation succeeds exactly for an acceptable body with fewer than 3 alerts stored. 429 comes exactly for an acceptable body at the cap. The row gets the next id, the clock's `created_at` and the validated fields. |
| `RequestChecks.ZeroCoordinateIsMissing` | backend/src/server.js:58 | A latitude or longitude of 0 is refused as a missing field. |
| `RequestChecks.ZeroThresholdAccepted` | backend/src/server.js:58 | A threshold of 0 is accepted, with any non-empty parameter name. |
| `RequestChecks.CreatedRowAdmissible` | backend/src/server.js:58-85 | A row the checks let through satisfies the table's field constraints. |
| `RequestChecks.CheckAlertId` | backend/src/server.js:186-191 | The id is accepted exactly when parseInt gives a positive number, and then it is that number. |
| `RequestChecks.AlertIdText` | backend/src/server.js:186-191 | The decimal text of a positive id is accepted as that id. Any other id is refused. |
| `RequestChecks.DecideDelete` | backend/src/server.js:186-204 | Deletion succeeds exactly for a valid id of a stored alert. Otherwise it gives 400 for an invalid id and 404 for an absent one. |
| `RequestChecks.CheckStatusRequest` | backend/src/server.js:270-284 | The checks run in order: id, then `is_triggered` is boolean, then `current_value` is a number. |
| `RequestChecks.DecideStatusWrite` | backend/src/server.js:270-310 | The write succeeds exactly when the checks pass, the alert exists (else 404) and `checked_at` denotes a date (else 500, from the throwing conversion). The row it appends carries the id, flag, stamp and value. |
| `RequestChecks.ServerErrors` | backend/src/server.js:321-326 | Exactly two replies carry status 500: a failed provider fetch (also lines 391-396) and an unreadable `checked_at`. |
| `RequestChecks.ReadCoordinate` | backend/src/server.js:363-372 | A coordinate is accepted exactly when parseFloat gives a finite number within the bound. |
| `RequestChecks.CheckWeatherQuery` | backend/src/server.js:353-373 | Empty or absent parameters are the missing-parameters error. Otherwise the query is accepted exactly when both parse to finite numbers in range, and it gives the parsed values. |
| `RequestChecks.WeatherEndpoint` | backend/src/server.js:353-391 | The checks come first, then 503 when the provider is unconfigured. The provider's reply is returned for the parsed coordinates, and its failure is a 500 carrying the provider's message. |
| `RequestChecks.ZeroQueryCoordinatesAccepted` | backend/src/server.js:356-364 | Query coordinates "0" pass the weather checks that a body latitude of 0 fails. |
| `RequestChecks.IntegerCoordinatesAccepted` | backend/src/server.js:363-373 | Whole-degree coordinates in range are read back exactly. |
| `AlertStore.HasAlertAppended` | backend/src/server.js:104-107 | An alert stays stored when rows are appended. |
| `AlertStore.CreateKeepsValid` | backend/src/server.js:89-107 | A successful creation keeps the tables valid and within 3 alerts. |
| `AlertStore.DeleteKeepsValid` | backend/src/server.js:206-207 | A successful deletion keeps the tables valid and removes one alert. |
| `AlertStore.StatusWriteKeepsValid` | backend/src/server.js:307-310 | A successful status write keeps the tables valid. |
| `AlertStore.CreatedAlertListedUnchecked` | backend/src/server.js:104-107 | A newly created alert is listed with null status. |
| `AlertStore.StatusWriteBecomesLatest` | backend/src/server.js:307-310 | A status written no earlier than the alert's other checks becomes the status `GET /api/alerts` shows for it. |
| `AlertStore.DeletedAlertUnlisted` | backend/src/server.js:206-207 | After a deletion neither listing shows the alert. |
| `AlertStore.TriggeredMessage` | backend/src/server.js:255 | The message for no rows is "No alerts are currently triggered". Otherwise it is exactly the count's decimal text followed by " alert(s) are currently triggered", and parseInt reads it back as the count. |
| `AlertStore.Store.constructor` | backend/src/scripts/reset-db.js:33-61 | The tables start empty and valid. |
| `AlertStore.Store.CreateAlert` | backend/src/server.js:53-107 | The reply is the creation decision. On success exactly that row is appended and the next id advances. On any error nothing changes. The tables stay valid. |
| `AlertStore.Store.DeleteAlert` | backend/src/server.js:184-215 | On success it replies with the id and the stored description, removes that alert and all its status rows, and drops the count by one. On error nothing changes. |
| `AlertStore.Store.PutStatus` | backend/src/server.js:268-320 | The reply is the write decision. On success exactly one status row is appended and `alerts` is unchanged. On any error, including an unreadable `checked_at`, nothing changes. |
| `AlertStore.Store.ListAlerts` | backend/src/server.js:141-172 | The rows are the listing of the tables, sorted by `created_at` descending, and `count` is their number. The rows are the latest pairings, every stored alert appears, and without ties at a latest check `count` is the number of alerts. |
| `AlertStore.Store.ListTriggered` | backend/src/server.js:230-257 | The rows are the triggered listing of the tables, sorted by `checked_at` descending. `count` is the number of rows and of triggered status rows. The rows are the triggered joins, and the message reports the count. |
| `AlertEvaluator.EvaluateCondition` | src/services/alertEvaluator.js:110-124 | An operator gives a verdict exactly when it is one of the five. The verdict is whether the reading lies on the side of the threshold the operator names. Any other operator is an error. |
| `AlertEvaluator.KnownOperators` | src/services/alertEvaluator.js:111-123 | The operators with a verdict are exactly `> < >= <= =`. |
| `AlertEvaluator.ConditionsRelate` | src/services/alertEvaluator.js:112-121 | `>=` is `>` or `=`. `<=` and `<` negate `>` and `>=`. Exactly one of `<`, `=`, `>` holds. |
| `AlertEvaluator.EqualityIsExact` | src/services/alertEvaluator.js:120-121 | `=` holds only for the threshold itself, with no tolerance. |
| `AlertEvaluator.EvaluateSingleAlert` | src/services/alertEvaluator.js:71-105 | Evaluation succeeds exactly when the provider answers, the parameter is in the reply and the operator is known. The reading is `weather[parameter]` and the verdict is the condition on it. A provider error and a missing parameter are their own errors. |
| `AlertEvaluator.OutcomeOf` | src/services/alertEvaluator.js:29-40 | Each alert's entry carries its id. It is a success exactly when evaluation of the reply succeeds, and is then that result; otherwise it carries the caught error. |
| `AlertEvaluator.Outcomes` | src/services/alertEvaluator.js:27-41 | One entry per alert, in list order, each from the reply to that alert's own request. |
| `AlertEvaluator.StatusRequestFor` | src/services/alertEvaluator.js:147-152 | The write sends the outcome's `is_triggered` and no `current_value`. |
| `AlertEvaluator.CorrectedStatusRequestFor` | src/services/alertEvaluator.js:147-152 | The corrected write sends the same path and flag, plus the reading as `current_value`. |
| `AlertEvaluator.StatusPathNamesAlert` | src/services/alertEvaluator.js:149 | The backend's parseInt reads the write's path segment back as the outcome's alert id. |
| `AlertEvaluator.CountWhereIsCardinality` | src/services/alertEvaluator.js:131-133 | The recursive count is the number of positions satisfying the predicate. |
| `AlertEvaluator.StatusWrites` | src/services/alertEvaluator.js:130-133 | There is one write per successful entry. |
| `AlertEvaluator.StatusWritesInOrder` | src/services/alertEvaluator.js:131-133 | The write of a successful entry sits at the position counting the successes before it. |
| `AlertEvaluator.WritesComeFromSuccesses` | src/services/alertEvaluator.js:131-133 | Every write is the write of the success counted at its position. |
| `AlertEvaluator.EvaluationPass` | src/services/alertEvaluator.js:12-65 | A failed fetch throws with the "Failed to fetch alerts: " message and writes nothing. An empty list returns nothing and writes nothing. Otherwise the writes are those of the outcomes. The pass returns the outcomes exactly when every write is accepted, and otherwise it throws the status-write error. |
| `AlertEvaluator.EvaluateAllAlerts` | src/services/alertEvaluator.js:12-53 | The loop's result and writes are those of `EvaluationPass`. |
| `AlertEvaluator.UpdateAlertStatuses` | src/services/alertEvaluator.js:130-141 | The writes issued are those of the successful entries, in order, and the pass settles as accepted exactly when every write is. |
| `AlertEvaluator.AllAcceptedSnoc` | src/services/alertEvaluator.js:135-136 | One more write keeps all writes accepted exactly when the backend accepts that write. |
| `AlertEvaluator.OneOutcomePerAlert` | src/services/alertEvaluator.js:27-47 | A returned result has exactly one entry per fetched alert, in order, with that alert's id. |
| `AlertEvaluator.FailuresAreIsolated` | src/services/alertEvaluator.js:29-40 | An alert's entry depends only on the reply to its own request, not on the replies to other requests (including those for the same location) or on other alerts' failures. |
| `AlertEvaluator.WritesForSuccessesOnly` | src/services/alertEvaluator.js:130-133 | Writes go to exactly the successful entries, as many as there are successes. |
| `AlertEvaluator.EverySuccessWritten` | src/services/alertEvaluator.js:131-133 | Every successful entry has its write. |
| `AlertEvaluator.EveryWriteFromSuccess` | src/services/alertEvaluator.js:131-133 | Every write belongs to a successful entry. |
| `AlertEvaluator.NoSuccessNoWrites` | src/services/alertEvaluator.js:131-133 | Without successes there are no writes. |
| `AlertEvaluator.AllFailedWritesNothing` | src/services/alertEvaluator.js:27-47 | When every alert fails on the reply to its own request, the pass writes nothing and returns the failures. |
| `Scheduling.CronJob.constructor` | backend/src/services/scheduler.js:23-28 | A job is created stopped, on the given expression. |
| `Scheduling.CronJob.Start` | backend/src/services/scheduler.js:31 | Starting makes the job active. |
| `Scheduling.CronJob.Stop` | backend/src/services/scheduler.js:47 | Stopping makes the job inactive. |
| `Scheduling.StepsKeepViewValid` | backend/src/services/scheduler.js:14-52 | Start and stop keep `isRunning` equal to "a job exists and is active". |
| `Scheduling.StepsIdempotent` | backend/src/services/scheduler.js:15-18 | Starting twice is starting once, and stopping twice is stopping once. |
| `Scheduling.StartThenStop` | backend/src/services/scheduler.js:14-52 | After a start the scheduler runs and has a job. A stop keeps the job and clears `isRunning`, and a later start schedules another initial run. |
| `Scheduling.TriggeredCount` | backend/src/services/scheduler.js:67-68 | The triggered count is the number of entries that succeeded with `isTriggered`. |
| `Scheduling.TriggeredAmongSuccesses` | backend/src/services/scheduler.js:68 | The triggered count is at most the successes, which are at most the entries. |
| `Scheduling.Summarize` | backend/src/services/scheduler.js:57-75 | A thrown pass is caught and reported with its error. An absent result gives no summary. A result gives the count of triggered successes. |
| `Scheduling.StatusOf` | backend/src/services/scheduler.js:80-86 | `isRunning` mirrors the state, `nextRun` is present exactly when a job exists, and `lastRun` is always null. |
| `Scheduling.NextRunOnceStarted` | backend/src/services/scheduler.js:82 | `nextRun` is null before the first start and present after any start, stopped or not. |
| `BackendScheduler.CronExpressionFor` | backend/src/services/scheduler.js:8 | An absent or empty override gives `*/5 * * * *`. Otherwise the override is used. |
| `BackendScheduler.Scheduler.constructor` | backend/src/services/scheduler.js:5-9 | The scheduler starts not running, with no job and the configured expression. |
| `BackendScheduler.Scheduler.StartScheduler` | backend/src/services/scheduler.js:14-41 | While running nothing changes. Otherwise a fresh job on the configured expression is started, `isRunning` is set, and an initial run is scheduled. |
| `BackendScheduler.Scheduler.StopScheduler` | backend/src/services/scheduler.js:46-52 | Without a job nothing changes. With one, the job is stopped and kept and `isRunning` is cleared. |
| `BackendScheduler.Scheduler.RunAlertEvaluation` | backend/src/services/scheduler.js:57-75 | A run reports the pass's summary and never throws. |
| `BackendScheduler.Scheduler.CronFires` | backend/src/services/scheduler.js:23-25 | A cron firing runs a pass exactly when the scheduler is running. |
| `BackendScheduler.Scheduler.InitialTimerFires` | backend/src/services/scheduler.js:37-40 | The initial timer runs a pass even after a stop, and changes nothing else. |
| `BackendScheduler.Scheduler.GetStatus` | backend/src/services/scheduler.js:80-86 | `isRunning` mirrors the field, `nextRun` is present exactly when a job exists, and `lastRun` is null. |
| `SrcScheduler.Scheduler.constructor` | src/services/scheduler.js:5-8 | The scheduler starts not running, with no job. |
| `SrcScheduler.Scheduler.StartScheduler` | src/services/scheduler.js:13-40 | While running nothing changes. Otherwise a fresh five-minute job is started, `isRunning` is set, and an initial run is scheduled. |
| `SrcScheduler.Scheduler.StopScheduler` | src/services/scheduler.js:45-51 | Before any start nothing changes. After one, only `isRunning` is cleared and the job is stopped and kept. |
| `SrcScheduler.Scheduler.RunAlertEvaluation` | src/services/scheduler.js:56-74 | A run performs the evaluation pass, issues its writes, reports its summary and never throws. |
| `SrcScheduler.Scheduler.CronFires` | src/services/scheduler.js:22-24 | A cron firing runs a pass exactly when the scheduler is running. Otherwise it writes nothing. |
| `SrcScheduler.Scheduler.InitialTimerFires` | src/services/scheduler.js:36-39 | The initial timer runs a pass even after a stop. |
| `SrcScheduler.Scheduler.GetStatus` | src/services/scheduler.js:79-85 | `isRunning` mirrors the field, `nextRun` is present exactly when `cronJob` is set, and `lastRun` is null. |
| `Integration.EvaluatorAlert` | src/services/alertEvaluator.js:60-61 | The evaluator reads an alert's id, location, parameter, operator and threshold from a listing row. |
| `Integration.ListedAlerts` | src/services/alertEvaluator.js:60-61 | The fetched list has one alert per listing row, in order. |
| `Integration.AsWrittenWriteRejected` | backend/src/server.js:282-284 | The evaluator's status write is refused with 400, because of the missing `current_value` whenever the id is positive. |
| `Integration.AsWrittenPassThrows` | src/services/alertEvaluator.js:135-141 | Against the backend, any pass in which some alert is evaluated throws. |
| `Integration.CorrectedWriteAccepted` | backend/src/server.js:270-310 | The write with `current_value` for a stored alert is accepted and appends its row. |
| `Integration.CorrectedPassWritesAccepted` | backend/src/server.js:270-310 | Evaluating the backend's own listing, every successful entry's corrected write is accepted, whatever the reply it was evaluated on. |
| `Integration.StoredOperatorsKnown` | src/services/alertEvaluator.js:122-123 | A stored alert never fails with an unknown operator. |

## Left out

- HTTP plumbing: Express routing, CORS, JSON parsing, the health and root routes, the 404 and error middleware, and startup. The handlers are modelled as decisions and table effects.
- Database failures: every `500` raised when the pool or a query fails, and connection handling. These are I/O.
- `POST /api/alerts/evaluate`: it runs the evaluator in `backend/src/services/alertEvaluator.js`, which is not part of this model.
- Non-string `parameter` and `description` in a POST body: they are modelled as text or absent.
- Arrays or objects as query parameters of `GET /api/weather`: the query values are text or absent.
- The replies' decoration: the echo of the raw `description` and the handler's own `created_at` in the POST reply, the PUT reply, the `received` key list, `current_count`, and `max_allowed`. These are reply formatting and carry no table effect.
- Clock and formatting: `created_at`, `checked_at` (`checked_at || new Date()` and its timezone conversion), `evaluatedAt` and cron's next date are values supplied from outside.
- MySQL DECIMAL rounding of stored coordinates, thresholds and values, and the driver returning DECIMAL columns as strings. Numbers are exact reals. The evaluator reads `threshold` as a number, so a string threshold compared with `===` is out of scope.
- Floating point: parseInt and parseFloat results are exact integers and reals, without rounding to doubles or overflow to infinity past the largest double.
- Weather replies: readings are numbers present or absent. A `timestamp` field, a JSON `null` reading, and names inherited from the object prototype are not modelled.
- Error text: a failed entry keeps its error as a value rather than its message string. Log output is not modelled.
- Ordering of rows with equal sort keys: SQL leaves it open, and the model fixes one permitted order.
- Ids of `alert_status` rows (their own AUTO_INCREMENT) are not modelled, since nothing reads them.
- Concurrency: `Promise.all` issues the writes concurrently, ticks may overlap, and two creations may race between the count and the insert. Writes are modelled in sequence. Every write is issued and the pass fails if any is refused.
- The src schema in `src/config/database.js` (with `UNIQUE (alert_id)` and no `current_value`) is not modelled. The backend schema is.
- Cron timing and `setTimeout`: a firing is a method call, and a pending initial run is a counter.
- An invalid `CRON_EXPRESSION`: `cron.schedule` then throws out of `startScheduler` before `isRunning` is set. The model takes every expression as one cron accepts, since validating cron syntax is the library's concern.

## Findings

| source | as written | input that shows it | evidently intended | confidence | as-written member | corrected member |
|---|---|---|---|---|---|---|
| src/services/alertEvaluator.js:149-152 | The status write sends `is_triggered` and `checked_at` but no `current_value`. The backend refuses such a write with 400 (backend/src/server.js:282-284), so `Promise.all` rejects. | Any stored alert whose parameter is in the provider's reply, e.g. alert 1 with operator `>`: the write to `/api/alerts/1/status` gets 400 and the evaluation pass throws. | Send the reading as `current_value`, so the backend appends the status row. | not executed | `Integration.AsWrittenPassThrows` | `Integration.CorrectedPassWritesAccepted` |
| backend/src/server.js:232-255 | `GET /api/alerts/status` returns every triggered status row, although its reply message (line 255) calls them the alerts that are "currently triggered". | Alert 1 with status rows (triggered, checked at 1) and (not triggered, checked at 2): the reply lists alert 1 as currently triggered. | List only alerts whose latest status is triggered. | not executed | `AlertTables.TriggeredListingReportsStaleRows` | `AlertTables.CurrentlyTriggered` |
