# Severe-weather ingest: a model and its proofs

The service polls the National Weather Service for alerts, keeps them in one PostgreSQL table that
eight nodes share, and publishes a snapshot of the live ones, whole and per state. This project
models that behaviour in Dafny and proves what it promises.

`dafny verify dfyconfig.toml` checks everything. Times are integers in nanoseconds, and a text
timestamp is an `Option<Time>`, which is `None` when it does not parse.

**The alert table.** `AlertTable` gives each SQL statement as a function from table to table. `AlertStore`
holds the write path that issues the statements: the batch transaction, the per-row path it degrades
to, the trailing retirement and the purge. Each foreign call answers as a fault record says, and any call
may fail. `Fleet` is the protocol: any number of nodes take transactions, single inserts, single
retirement statements, purges, clock ticks and stops in any interleaving; `FleetWrites` shows every outcome of
the verified write path to be one of its runs, and `LostStorms` when a run can lose a storm. Assumptions about the feed (an id fixes its expiry and type; the
references of section 3.2.1 of OASIS CAP 1.2 run in no circle) are hypotheses of the theorems that use them
and of no other.

**The snapshot.** `Collapse` proves the in-place loop over an index map equal to "group, and take the
latest"; `Snapshot` carries that from the table to what is shown, and joins it to the runs of `Fleet`;
`Areas` shards the result by state.

**The poll loop.** `Schedule` is the absolute-time loop and the phase budgets, `Budget` the share each
fetch gets of what is left, `Fanout` the publish goroutines as interleaved steps with their semaphore and
wait group, `Publish` the attempts of one put and the schedule a semaphore makes, `TimedFanout` the same
goroutines under a clock, and `PublishPhase` the phase around them. `Retry`, `Client`, `Heartbeat` and
`Health` are the retry loop, the entity-tag cache (sections 13.1.2 and 15.4.5 of RFC 9110), what a heartbeat
vouches for, and the failure counters.

**The parsers.** `VtecParser`, `Tags` and `Detection` replace the regular expressions with scanners. Each
scanner is proved to match exactly what its expression matches and to choose the same match: leftmost,
and greedy within it.

**Where a promise fails.** Each limit is stated as an exact condition, for all inputs:

- two batches commute if and only if no message is late (`BatchesCommuteExactly`); a late one stays unretired,
  the leak accepted at internal/store/supersession_integration_test.go:297-302;
- a set of messages can lose a storm in some run if and only if same-type references among those that can land
  run in a circle (`NothingLostExactly`); a message that names itself is the smallest (`SelfReferenceIsLost`);
- a 304 heartbeat vouches whatever the store did if and only if the last tagged payload is the last one whose
  upsert did not panic, or is empty (`VouchesExactly`); an untagged payload and a panic break that
  (`UntaggedPayloadBreaksVouching`, `PanicBreaksVouching`);
- even then a nil error of the upsert vouches for a row per message exactly when every row the per-row path
  rejected is there for another reason (`NilErrorExactly`), and it can leave nothing
  (`NilErrorMayStoreNothing`);
- the phases fit their cycle exactly for intervals of at least seven seconds (`BudgetsFitExactly`,
  `ShortIntervalMissesATick`).

The comments at internal/poller/poller.go:252-256 and internal/poller/poller.go:317-324 speak of one
context around the whole cycle and of a five-second publish budget; the code gives each phase its own deadline and
publish fifteen seconds, and the model follows the code.

Where the original builds an object and updates its fields there is a class (`AlertStore.Store`,
`Client.AlertsClient`, `Heartbeat.Poller`, `Health.Registry`), and where it loops there is a method with its
invariants; each is proved against a function on values, and the lemmas are about that function.

## Model

| member | source | states |
|---|---|---|
| `AlertTable.LandAllRow` | internal/store/queries.go:65-88 | Column by column, after any list of upserts: an old row has type, content and expiry of the last alert with its id, a fresh `updated_at`, and every other column as it was; a new row also takes sender and effective time (the time of receipt when it does not parse) from the first, and is unretired. |
| `AlertTable.FirstAndLast` | internal/store/postgres.go:353-384 | Which alerts these are: the ones at the least and the greatest position with a parseable expiry and that id. |
| `AlertTable.LandAllFresh` | internal/store/postgres.go:420-433 | A row that was not there holds its message's type, content, sender, own effective time or else the time of receipt, and own expiry, wherever the message stands in a batch of consistent ids. |
| `AlertTable.CommitRowExactly` | internal/store/postgres.go:339-410 | A committed batch, row by row: which ids have a row, its columns, and its mark, which is the old one or is set now exactly when a queued message of the row's type names the id. |
| `AlertTable.QueuedMembers` | internal/store/postgres.go:347-369 | The queued alerts are exactly those of the batch whose expiry parses, and no more of them than the batch holds. |
| `AlertTable.QueuedInOrder` | internal/store/postgres.go:347-369 | They stand in the order of the batch and as often as there: the queue is the batch at an increasing list of exactly the parseable positions. |
| `AlertTable.BatchOrderInsensitive` | internal/store/postgres.go:353-409 | Any permutation of a batch with consistent ids commits the same table. |
| `AlertTable.RetiredEvenWhenListedAfter` | internal/store/postgres.go:398-404 | A message superseded in its own batch ends retired, even when it is listed after its superseder. |
| `AlertTable.ReplayConverges` | internal/store/postgres.go:321-333 | Replaying a batch of which every row landed but only some retirements ran reaches the table of one clean transaction up to stamps; rows retired the first time keep their mark. |
| `AlertTable.ReplayChangesOnlyUpdatedAt` | internal/store/queries.go:65-88 | The same batch again, at any clock, changes `updated_at` and nothing else. |
| `AlertTable.SelfReferenceRetiresItself` | internal/store/queries.go:115-119 | A message that names itself is marked by its own batch; `LostStorms.SelfReferenceIsLost` draws the consequence. |
| `AlertTable.CommitOne` | internal/store/postgres.go:339-410 | What a one-message transaction does to every row: insert or refresh its own, retire the same-type rows it names, leave the rest. |
| `AlertTable.CrossBatchOrderMattersExactly` | internal/store/supersession_integration_test.go:297-302 | Two new messages in two batches give the same table in both orders if and only if neither supersedes the other (one that retires itself apart); otherwise the late predecessor is left unretired. |
| `AlertTable.BatchesCommuteExactly` | internal/store/postgres.go:339-410 | Two whole batches, ids old or new, at any clocks, leave the same rows marked in both orders if and only if no message of one is retired by the other in one order only; at one clock the whole tables agree exactly then. |
| `AlertStore.GroupReferencesMeaning` | internal/store/supersede.go:21-32 | An id is in the group of an event type exactly when some alert of that type in the batch names it and it is not empty. |
| `AlertStore.ReferencesByEventType` | internal/store/supersede.go:21-32 | The nested loops build those groups. |
| `AlertStore.RetireOneMoreGroup` | internal/store/supersede.go:40-46 | One more UPDATE retires rows that no other event type's UPDATE retires, and its row count adds up. |
| `AlertStore.RetirementIgnoresGroupOrder` | internal/store/supersede.go:38-48 | Any order of the event types gives the same table, and the total is the number of unretired rows that a same-type alert names, duplicates counted once. |
| `AlertStore.AllGroupsAreSuperseded` | internal/store/supersede.go:38-48 | All groups together retire exactly the unretired rows superseded by a same-type alert. |
| `AlertStore.SomeGroupsRetireSome` | internal/store/supersede.go:42-44 | A retirement that stops between two UPDATEs has marked only superseded rows and changed nothing else. |
| `AlertStore.Store.RetireReferenced` | internal/store/supersede.go:38-48 | Succeeds exactly when no group's UPDATE fails; then exactly the superseded rows are marked and counted. On an error, which is that of some group, the UPDATEs of some event types took effect and nothing else. |
| `AlertStore.Store.QueueBatch` | internal/store/postgres.go:351-369 | Fails exactly when an alert with a parseable expiry does not marshal; otherwise queued and skipped account for the batch. |
| `AlertStore.Store.SendBatch` | internal/store/postgres.go:378-396 | Returns the error of the first queued statement that fails, else that of the close; without one the whole batch landed in order. |
| `AlertStore.Store.UpsertAlertsBatchTx` | internal/store/postgres.go:339-410 | All or nothing: it succeeds exactly when no fault it meets occurs, and then the table is the committed batch; on an error the table is untouched and the error is that of the first fault met, so a context error is told from another. |
| `AlertStore.CleanOrFails` | internal/store/postgres.go:339-410 | A transaction is clean if and only if there is no error it can stop with. |
| `AlertStore.Store.UpsertAlert` | internal/store/postgres.go:209-252 | Skipped exactly for an unparseable expiry, rejected exactly for a marshal or database error; a landed row is spelled out column by column, inserted or refreshed, and every other row stays as it was. |
| `AlertStore.Store.InsertEach` | internal/store/postgres.go:299-319 | The loop stops at the first row that meets a context error and at no other; table, landed rows and skip count are then those of the rows before it, and of all rows when there is none. |
| `AlertStore.RowByRowLands` | internal/store/postgres.go:299-319 | After any number of rows the loop's table, landed list and skip count are those of the transaction's fold over the rows that did not fail. |
| `AlertStore.RowsAreAccountedFor` | internal/store/postgres.go:299-319 | After any number of rows, landed + skipped + failed is that number. |
| `AlertStore.DegradedRefinesTransaction` | internal/store/postgres.go:299-334 | At a fixed clock, per-row inserts in which exactly the rows F fail, and then one retirement, give the table of the transaction on the batch without F; landed + skipped + failed = batch length. |
| `AlertStore.Store.UpsertEach` | internal/store/postgres.go:299-334 | What the per-row path returns and leaves, first context error included; after all rows, the retirement of the landed rows ran for some event types, for all when no UPDATE fails, and its error is dropped. |
| `AlertStore.DegradedOutcome` | internal/store/postgres.go:299-334 | A degraded nil return accounts for every row and leaves the transaction on the batch without its failed rows, short only of retirements whose UPDATE did not run. |
| `AlertStore.Store.UpsertAlertsBatch` | internal/store/postgres.go:269-334 | Which path ran, what it returned and what it left, for every fault: empty batch, clean transaction, context error, per-row path. |
| `AlertStore.DegradesExactly` | internal/store/postgres.go:274-297 | When the first fault cannot be a context error, the per-row path runs if and only if the batch is not empty, the transaction is not clean and the context lives; the only error ever returned is the context's, and without the per-row path it leaves the table as it was. |
| `AlertStore.NilErrorExactly` | internal/store/postgres.go:299-334 | After a nil error every parseable message has a row if and only if the path was clean or each rejected row's id was there before or landed elsewhere in the batch; inserted + skipped is the batch length exactly when nothing was rejected. |
| `AlertStore.NilErrorMayStoreNothing` | internal/store/postgres.go:302-333 | For every batch and table a call can reject every row and still return nil. |
| `AlertStore.Store.PurgeExpired` | internal/store/postgres.go:810-816 | Deletes exactly the rows past their expiry, counts them, and changes no row that a snapshot could show; a failed DELETE deletes nothing and is returned. |
| `Fleet.StepKeepsExpiry` | internal/store/queries.go:65-88 | When ids fix their expiry, every step of every node keeps each row's expiry the one its id fixes. |
| `Fleet.StepKeepsGone` | internal/store/queries.go:84-87 | A retired mark outlasts every step except a purge, and a purge removes it only once the id has expired. |
| `Fleet.RetiredNeverReappears` | internal/store/queries.go:101-125 | In every run, a retired id is in no later snapshot: re-upserts keep the mark, and a row inserted again after a purge has already expired. |
| `Fleet.StepKeepsInvariant` | internal/store/postgres.go:299-410 | Every step of any node keeps: a retired row has a landed same-type superseder, a landed message has a row or has expired, and pending groups only name ids superseded by landed messages. |
| `Fleet.FollowChain` | internal/store/supersede.go:38-48 | From any known id a chain of landed same-type superseders ends in a visible or expired message; it is finite because without a circle no superseder stands on it already. |
| `Fleet.NoStormIsLost` | internal/store/postgres.go:299-409 | In every run (interleavings, aborts, partial retirements, purges) whose landed same-type references run in no circle, every landed message and every row leads along such a chain to a message a snapshot shows now or whose expiry has passed. |
| `Fleet.EarlierReferencesAreAcyclic` | internal/store/supersede.go:17-32 | References to strictly earlier messages run in no circle. |
| `LostStorms.SupersededBatchIsLost` | internal/store/postgres.go:398-409 | A batch in which every message is superseded by one of the batch loses every message of it while they are unexpired: no chain leads anywhere visible. |
| `LostStorms.SelfReferenceIsLost` | internal/store/queries.go:115-119 | A message that names itself is lost by its own batch. |
| `LostStorms.NothingLostExactly` | internal/store/postgres.go:299-409 | For any set of messages of fixed type and expiry: no run of them loses a storm if and only if same-type references among those with a parseable expiry run in no circle. |
| `FleetWrites.BatchIsARun` | internal/store/postgres.go:269-334 | Every outcome of a batch call, failures and cut-short retirements included, is reached by a run of that node's fleet steps on that batch alone, which lands as many messages as the call reports and leaves every other node as it was. |
| `FleetWrites.WriteBatch` | internal/store/postgres.go:269-334 | The verified write path itself moves the table as such a run does, so the theorems about runs speak about it. |
| `FleetWrites.PurgeTable` | internal/store/postgres.go:810-816 | So does the verified purge, which is one step, or none when the DELETE fails. |
| `Collapse.LaterIsTransitive` | internal/store/collapse.go:69-77 | Later issuance is transitive, and so is its negation. |
| `Collapse.LaterIsAsymmetric` | internal/store/collapse.go:69-77 | Never both ways, and always one way for different ids: the winner is determined. |
| `Collapse.LaterByTime` | internal/store/collapse.go:69-77 | The direction of each comparison: later effect, then later expiry, then the greater id. |
| `Text.LessExactly` | internal/store/collapse.go:76 | The id order: a proper prefix first, else the smaller character at the first difference. |
| `Collapse.JoinKeyInjective` | internal/store/collapse.go:48-50 | The NUL-joined keys of two rows agree exactly when identity, type and area agree. |
| `Collapse.CollapseByEvent` | internal/store/collapse.go:38-63 | The loop with its index map and in-place replacement returns, for every leader in first-seen order, the latest row of its group. |
| `Collapse.LatestIsMaximal` | internal/store/collapse.go:57-59 | No row of the group was issued later than the one kept. |
| `Collapse.GroupsAppearOnce` | internal/store/collapse.go:12-17 | Two places of the output never hold the same VTEC group. |
| `Collapse.RowIsRepresented` | internal/store/collapse.go:12-17 | Every input row is represented by a row of its identity, type and footprint that is not older; a row without VTEC by itself. |
| `Collapse.SurvivorsExactly` | internal/store/collapse.go:12-17 | With unique ids a row survives if and only if it has no VTEC identity or is the latest of its group. |
| `Collapse.SurvivorIsLastIssued` | internal/store/collapse.go:57-77 | The same by the columns alone: of the rows with its VTEC identity, type and area none has a later effect, nor on a tie a later expiry, nor then a greater id. |
| `Collapse.FirstSeenOrder` | internal/store/collapse.go:43-62 | Each survivor stands where its group was first seen, in that order. |
| `Collapse.CollapseIgnoresOrder` | internal/store/collapse.go:65-68 | With unique ids every permutation of the input has the same survivors. |
| `Collapse.CollapseIdempotent` | internal/store/collapse.go:38-63 | Collapsing twice is collapsing once. |
| `Collapse.CollapseKeepsOrder` | internal/store/collapse.go:16-17 | An input sorted newest first stays sorted, although survivors are replaced in place. |
| `Snapshot.GetActiveAlerts` | internal/store/postgres.go:640-805 | Scanning the cursor, deriving states, tags, detection and VTEC identity, and collapsing gives the specified snapshot; every row of it is an unexpired, unretired table row shown column by column, with the states its codes or description give; a row whose VTEC or detection cannot be read ships without it. |
| `Snapshot.SnapshotCovers` | internal/store/postgres.go:791-804 | Every unexpired, unretired row is represented by a snapshot row of the same identity, type and footprint that was not issued earlier. |
| `Snapshot.SnapshotShowsOnlyActive` | internal/store/queries.go:101-109 | Every snapshot row is an unexpired, unretired table row under its own id: type, area, times, states, tags and detection are that row's, and its event id is that of the row's P-VTEC, or empty when there is none. |
| `Snapshot.ConfirmedOnlyWhenObserved` | internal/store/postgres.go:715-743 | A published row is a confirmed tornado if and only if the table row's parameter says OBSERVED, or settles nothing and the last TORNADO tag of its description does. |
| `Snapshot.SnapshotIsOrdered` | internal/store/queries.go:101-109 | The snapshot is newest first, and its rows have distinct ids before the collapse. |
| `Snapshot.SnapshotIgnoresTies` | internal/store/collapse.go:65-68 | However the database orders rows of equal effective time, the same rows survive. |
| `Snapshot.RetiredIsNeverPublished` | internal/store/queries.go:101-119 | In every run of the fleet, no snapshot after an id's retirement holds that id. |
| `Snapshot.EveryStormIsPublished` | internal/store/postgres.go:269-410 | In every run without circular references, every landed message leads along a chain of same-type superseders to one that has expired or that the published snapshot represents. |
| `Areas.ParseAreas` | cmd/ingest/main.go:197-216 | Exactly the known two-letter codes that some token gives when trimmed and upper-cased, each once, at its first occurrence and in that order; a blank setting gives WI. |
| `Areas.DeriveStates` | internal/store/postgres.go:827-864 | Exactly the states of the resolved SAME codes, or, when none resolves and a description is given, exactly those its segments name; sorted, without repeats. |
| `Areas.DerivedIsUnique` | internal/store/postgres.go:858-863 | The states of a row are determined: two sorted lists with these members are the same. |
| `Areas.SegmentStateExactly` | internal/store/postgres.go:838-850 | A segment names a state exactly when the text after its last comma is, trimmed, two letters that upper-case to it, and it is known. |
| `Areas.FilterAlertsByState` | internal/poller/poller.go:652-660 | The shard holds exactly the alerts that cover the state, in order. |
| `Areas.ShardInOrder` | internal/poller/poller.go:652-660 | The shard is the alerts at an increasing list of exactly the positions that cover the state. |
| `Areas.ShardsCountEveryCover` | internal/poller/poller.go:652-660 | For distinct areas, the alerts over all shards number the sum over alerts of the polled areas each covers. |
| `Schedule.BudgetsFitExactly` | internal/poller/poller.go:198-275 | The two budgets for every interval: 10s and 15s from 30s on, the interval less 20s and 15s from 21s, 1s and the interval less 6s from 7s, and 1s each below; they sum to the cycle timeout, and stay 5s inside the interval, if and only if the interval is at least 7s. |
| `Schedule.Run` | internal/poller/poller.go:145-176 | Reading the clock once per skipped slot and sleeping to the absolute slot time, the nested loops produce exactly the log that the schedule lemmas below are about. |
| `Schedule.TurnExactly` | internal/poller/poller.go:151-174 | One turn by the clock: the slots skipped are exactly those past at their own reading of the clock, the poll begins at the next slot's absolute time plus the timer's lateness, and the next turn when it ends. |
| `Schedule.SkipStopsAtFirstFuture` | internal/poller/poller.go:156-163 | The skip loop ends, logs only missed slots that were past, and stops at the first slot not in the past. |
| `Schedule.NeverDriftsOrBursts` | internal/poller/poller.go:148-175 | In every run slot k is fired or logged missed exactly once, in order: fired + missed = cycle - 1, no poll begins before its slot, no slot is missed before it is past. |
| `Schedule.OneFiringPerTurn` | internal/poller/poller.go:171-174 | Every turn fires one slot: there are no catch-up polls. |
| `Schedule.LoadIsBounded` | internal/poller/poller.go:113-119 | In every run, by any time t at most (t - start) / interval scheduled polls have begun. |
| `Schedule.ShortTurnsMissNothing` | internal/poller/poller.go:151-175 | When every turn ends inside its interval every slot fires. |
| `Schedule.NoTickIsMissed` | internal/poller/poller.go:178-208 | For an interval of at least 7s, polls that keep their phase deadlines, and lateness plus overhead within 5s, the skip loop never runs. |
| `Schedule.ShortIntervalMissesATick` | internal/poller/poller.go:183-186 | For every interval below 7s a poll that keeps its deadlines can make the loop miss a slot. |
| `Budget.FetchesLeaveAProduct` | internal/poller/poller.go:286-297 | Any fetches capped in turn at percentages of the time remaining, truncated, with any store time in between, together use at most the phase less the product of what each cap leaves. |
| `Budget.FetchBudgetFloor` | internal/poller/poller.go:425-493 | The caps of 50, 20, 20 and 20 percent use at most 74.4% of the phase. |
| `Budget.FetchBudgetIsTight` | internal/poller/poller.go:425-493 | The bound is reached. |
| `Fanout.StepKeepsInvariant` | internal/poller/poller.go:564-597 | Every step of the launcher or a worker keeps: the semaphore and the wait group count the workers, launches are in order, and each counter is the failures recorded so far. |
| `Fanout.AtMostFourInFlight` | internal/poller/poller.go:565-570 | In every state of every interleaving at most four puts are in flight, and the slots account for them. |
| `Fanout.NeverStuck` | internal/poller/poller.go:564-597 | In every reachable state before the return some step can be taken. |
| `Fanout.StepsShrink` | internal/poller/poller.go:564-597 | Every step uses up a bounded count, so no schedule runs for ever. |
| `Fanout.EveryScheduleEnds` | internal/poller/poller.go:596 | No schedule takes more than seven steps an area and one, and one that has not returned can go on: the wait ends. |
| `Fanout.LaunchedOnceInOrder` | internal/poller/poller.go:567-571 | Every schedule launches the areas in order, each once. |
| `Fanout.FanOutAccountsForFailures` | internal/poller/poller.go:571-594 | When the fan-out returns, under any schedule, every goroutine has gone, every slot is back, and each state's counter is the number of its puts that failed or panicked. |
| `Fanout.PublishPerStateSnapshots` | internal/poller/poller.go:564-597 | Run by any scheduler, the fan-out ends and adds exactly those counts to whatever the shared registry held. |
| `PublishPhase.PublishSnapshot` | internal/poller/poller.go:527-555 | A failed query writes nothing and leaves the counters alone. Otherwise the merged put decides the phase and writes the collapsed snapshot; the areas written are those whose put neither panicked nor used up its attempts, each with exactly its share; and among distinct areas the counter is 0 for those and 1 for the others. |
| `PublishPhase.WriteShards` | internal/poller/poller.go:586-593 | The areas written are exactly those with a successful put, and each file is the area's share of the snapshot. |
| `PublishPhase.PublishedFilesCover` | internal/poller/poller.go:527-597 | Every unexpired, unretired row is represented in the merged snapshot, and its representative stands in the share of every state that the representative's table row derives. |
| `Publish.AttemptPublish` | internal/poller/poller.go:625-645 | A put succeeds exactly when one of the attempts made does; otherwise the error is the phase's when it ended during a pause and the last attempt's when none were left; the time is that of the attempts, the pauses between them and the part of the last one that was slept. |
| `Publish.PutIsBounded` | internal/poller/poller.go:606-645 | With its per-attempt timeouts a put makes at most two attempts and takes at most 6.2s. |
| `Publish.PutBoundIsReached` | internal/poller/poller.go:517-525 | Two attempts that time out take exactly 6.2s. |
| `Publish.ScheduleExists` | internal/poller/poller.go:565-571 | For every list of durations and at least one slot there is a semaphore schedule. |
| `Publish.ScheduleIsUnique` | internal/poller/poller.go:565-571 | The durations alone decide when each put starts. |
| `Publish.StartsWithinItsShare` | internal/poller/poller.go:557-563 | With any number of slots, an area starts no later than an equal share of the puts before it. |
| `Publish.FanOutDoesNotStarve` | internal/poller/poller.go:557-597 | With four slots area i starts by a quarter of the earlier durations, and every put ends by a quarter of the total and three quarters of the longest. |
| `Publish.FanOutEndsInTime` | internal/poller/poller.go:557-597 | With every put held to 6.2s the last of n areas ends by (n + 3) times 1.55s. |
| `TimedFanout.MoveKeepsInvariant` | internal/poller/poller.go:564-597 | Every step and every clock tick of the timed goroutines keeps: puts are on time, the starts so far are a semaphore schedule, every slot has been held since the launcher began to wait, and the clock is not past the last end. |
| `TimedFanout.FanOutFollowsSchedule` | internal/poller/poller.go:564-597 | When the timed goroutines have returned, the starts are the semaphore schedule of the durations: the schedule the bounds are about is what the machine does. |
| `TimedFanout.ClockIsBounded` | internal/poller/poller.go:557-597 | In every timed run, at every moment, each area launched began within a quarter of the earlier durations, and the clock is within a quarter of the total and three quarters of the longest. |
| `TimedFanout.FanOutIsOverInTime` | internal/poller/poller.go:557-645 | With every put held to 6.2s the clock never passes (n + 3) times 1.55s. |
| `TimedFanout.TimeNeverStops` | internal/poller/poller.go:564-597 | A timed run that has not returned can go on, by a step or by a tick. |
| `TimedFanout.TimedRunsEnd` | internal/poller/poller.go:596 | The length of every timed run is bounded by the areas and the durations. |
| `Health.Registry.RecordPublishPutFailure` | internal/health/registry.go:67-74 | One state's counter grows by one, an absent one from zero; nothing else changes. |
| `Health.Registry.ResetPublishFailures` | internal/health/registry.go:80-87 | Every counter is gone; the feed times stay. |
| `Health.Registry.PublishPutFailures` | internal/health/registry.go:92-103 | The copy holds exactly the current counts. |
| `Retry.IsRetryableStatus` | internal/retry/retry.go:37-42 | 429 and the five hundreds, and no other code. |
| `Retry.BackoffDelay` | internal/retry/retry.go:50-60 | The doubling loop with its early exit draws from 0 to the cap. |
| `Retry.BackoffCaps` | internal/retry/retry.go:44-60 | The cap is 500ms, 1s, and 2s from the third attempt on, which is the lesser of 500ms times 2 to the attempt and 2s. |
| `Retry.ComputeNextDelay` | internal/retry/retry.go:82-97 | Refused exactly under a deadline with less than 250ms left; otherwise the delay is Retry-After, or without one the draw, cut to leave 250ms. |
| `Retry.NextDelayExactly` | internal/retry/retry.go:82-97 | The specification function grants that one delay and no other. |
| `Client.AlertsClient.RetryAfter` | internal/nws/client.go:156-176 | While attempts are left and the sleep is not cut short a retry is refused exactly when it is too late; a granted one starts after the pause that Retry-After or the backoff draw asks for, at least 250ms before the deadline. |
| `Client.AlertsClient.Receive` | internal/nws/client.go:112-148 | The cache changes only when a tagged payload was decoded; a payload that does not decode leaves it as it was, absent or not. |
| `Client.AlertsClient.FetchActiveAlerts` | internal/nws/client.go:61-151 | The retry loop's outcome, and an entity-tag cache that changes exactly on a decoded payload with a tag, for this endpoint only. |
| `Client.AttemptsStartAsTold` | internal/nws/client.go:72-110 | Every attempt begins at the end of the one before plus exactly the pause that attempt earned: Retry-After, or else the draw under its cap, cut to leave 250ms. |
| `Client.RetriesStayInBudget` | internal/nws/client.go:72-110 | For every answer and every Retry-After value: at most three attempts, each retry starts with at least 250ms left, and total sleep is at most the budget less 250ms. |
| `Client.NonTransientIsFinal` | internal/nws/client.go:72-150 | Every attempt but the last failed transiently (transport, 429, 5xx), whichever attempt meets a refusal; unchanged means that the last answer was a 304, and a payload that it was a 200 that decoded. |
| `Client.SecondAttemptExactly` | internal/nws/client.go:84-110 | A second attempt follows if and only if the first failed transiently (transport, 429, 5xx) and at least 250ms are left. |
| `Heartbeat.Poller.PollAlerts` | internal/poller/poller.go:416-467 | A heartbeat is supported if and only if the answer was a 304 and the last upsert had not failed, or a payload was decoded and stored: never by a failed fetch. The tag changes only on a tagged payload, the flag only on an upsert that came to an end, and the table only as the batch write path leaves it. |
| `Heartbeat.Poller.Poll` | internal/poller/poller.go:325-397 | A heartbeat fires if and only if, when the mode ingests, a 304 met an unfailed store or a payload was stored, and, when it publishes, the merged put succeeded; a panic skips the purge and the publish phase; a node that does not ingest touches neither memory nor table, and the table is otherwise what the upsert left, purged. |
| `Heartbeat.ShouldHeartbeat` | internal/poller/heartbeat.go:35-44 | The heartbeat fires if and only if each phase this mode runs succeeded; the other phase does not matter. |
| `Heartbeat.MemoryIsExact` | internal/nws/client.go:112-148 | In every run, panics and untagged payloads included, the cached tag is that of the last tagged payload decoded, and the flag says whether the last payload whose upsert did not panic failed. |
| `Heartbeat.SupportsExactly` | internal/poller/poller.go:428-467 | What supports a heartbeat after any run: a 304 over a settled payload that was stored (or none yet), or a payload stored now. |
| `Heartbeat.FailedFetchIsSilent` | internal/poller/poller.go:437-440 | In any run a failed fetch supports no heartbeat, and the run goes on as if it had not been. |
| `Heartbeat.HeartbeatVouchesForStore` | internal/poller/poller.go:428-467 | In every run with an honest server a 304 confirms the last tagged payload t, and supports a heartbeat if and only if the last payload s whose upsert did not panic was stored, or there is none. So the heartbeat is true exactly when t was stored or s failed, and when t is s it fires exactly when t was stored. |
| `Heartbeat.VouchesExactly` | internal/poller/poller.go:412-467 | For fixed fetches and panics the heartbeat is true whichever upserts were stored and whichever failed, if and only if t is s, or t is an empty payload whose upsert did not panic. |
| `Heartbeat.HeartbeatVouchesForRows` | internal/poller/poller.go:428-467 | When t is s, a supported heartbeat vouches for a row for every parseable message of the confirmed payload, as its upsert left the table, if and only if that upsert was clean or every rejected row is there for another reason. |
| `Heartbeat.UntaggedPayloadBreaksVouching` | internal/nws/client.go:117-125 | After any tagged payload whose upsert fails and any untagged one that is stored, every honest 304 supports a false heartbeat. |
| `Heartbeat.PanicBreaksVouching` | internal/poller/poller.go:452-458 | After any tagged payload whose upsert panics, every honest 304 supports a false heartbeat. |
| `Heartbeat.BothHappen` | internal/nws/client.go:112-148 | Both histories happen, with any one alert. |
| `Tags.ScanLineIsGreedyMatch` | internal/nws/tags.go:105-113 | The line scanner matches exactly the lines the pattern matches, and of all the ways takes the one with most dots. |
| `Tags.ParseWarningTags` | internal/nws/tags.go:138-185 | Assigning fields line by line gives the tags of the block that `FieldIsLastLine` characterises, and nothing when no line is recognised. |
| `Tags.EveryKeySetsItsField` | internal/nws/tags.go:90-103 | Each of the twelve keys as NWS writes it, followed by dots and a value, sets the field of its name. |
| `Tags.LineTagExactly` | internal/nws/tags.go:157-178 | A line carries a tag exactly when it scans, its normalised key is the tag's, and its trimmed value is not empty. |
| `Text.NormalizeMeaning` | internal/nws/tags.go:187-193 | The normal form has the same words, upper-cased, with single spaces between them. |
| `Tags.IsEmpty` | internal/nws/tags.go:67-80 | Empty exactly when every field is. |
| `Tags.OnlyTheBlockMatters` | internal/nws/tags.go:141-149 | The result depends only on the text between the first `&&` and the next one or the end. |
| `Tags.FieldIsLastLine` | internal/nws/tags.go:152-179 | Each field holds the value of the last line with its key, and is empty exactly when there is none. |
| `Tags.UnrecognisedLineIsIgnored` | internal/nws/tags.go:135-137 | A line without a recognised tag changes nothing, wherever it stands. |
| `Tags.TagsRoundTrip` | internal/nws/tags.go:138-185 | A block with one line per non-empty field (trimmed, one line, no `&&`, no leading dot), in any order and inside any description, parses back to the same tags. |
| `Detection.FirstParam` | internal/nws/detection.go:271-285 | The first non-blank entry of the key, and none exactly when the key is absent or every entry is blank. |
| `Detection.CaptureAtExactly` | internal/nws/detection.go:108-139 | The narrative scanner matches at a place exactly when the HAZARD or SOURCE pattern does, and of all the ways takes the greedy one, giving spaces and then a dot back. |
| `Detection.CaptureIsLeftmost` | internal/nws/detection.go:108-139 | Of all places the first that matches. |
| `Detection.CaptureExactly` | internal/nws/detection.go:108-139 | The scanner as a whole: the greedy match at the leftmost place where the pattern matches, and nothing exactly when it matches nowhere. |
| `Detection.DetectTornado` | internal/nws/detection.go:156-265 | Updating the record tier by tier, with an early return on an unknown token, gives the result that the rows below determine. |
| `Detection.TagTokenIsLastLine` | internal/nws/detection.go:200-212 | The tag tier reads a token exactly when the last TORNADO line of the block normalises to it, and none exactly when there is no such line. |
| `Detection.ObservedExactly` | internal/nws/detection.go:156-265 | OBSERVED, equivalently `confirmed`, if and only if the first non-blank parameter normalises to OBSERVED, or it settles nothing and the last TORNADO tag does. |
| `Detection.RadarIndicatedExactly` | internal/nws/detection.go:156-265 | RADAR_INDICATED if and only if the parameter says so, or settles nothing and the last TORNADO tag says so, or neither settles anything and the narrative qualifies; no detection if and only if neither settles anything and the narrative does not qualify. |
| `Detection.NarrativeExactly` | internal/nws/detection.go:124-134 | The narrative qualifies exactly when the HAZARD value mentions a tornado and none of POSSIBLE, WIND, HAIL, MPH, GUST as a word, and the SOURCE value holds RADAR INDICATED. |
| `Detection.ContainsWordExactly` | internal/nws/detection.go:111-117 | A word is there exactly when some stretch of the text is it in any case and no letter, digit or underscore touches it. |
| `Detection.SourceTextExactly` | internal/nws/detection.go:232-246 | The source shown is the block's SOURCE value (that of its last SOURCE line), and only without one the narrative's, trimmed of spaces and final dots. |
| `Detection.NarrativeCannotConfirm` | internal/nws/detection.go:248-258 | Changing the text outside the block never turns a result into OBSERVED, nor out of it. |
| `Detection.DriftExactly` | internal/nws/detection.go:179-221 | An error if and only if the parameter, or behind it the tag, holds an unknown token. |
| `Detection.NarrativeOnlyUnderclaims` | internal/nws/detection.go:248-258 | With the same block two descriptions differ at most in one being radar-indicated where the other is undetected. |
| `Detection.DamageThreatExactly` | internal/nws/detection.go:185-231 | The threat is the parameter's when it names one, and else the tag's, and base when neither does. |
| `VtecParser.MatchExactly` | internal/nws/vtec.go:70-75 | The pattern matches at a place exactly when a formatted P-VTEC with fields of the right shape stands there. |
| `VtecParser.ScanIsLeftmost` | internal/nws/vtec.go:96-99 | The scan returns the first match, and nothing exactly when there is none. |
| `VtecParser.RoundTrip` | internal/nws/vtec.go:75-107 | A formatted P-VTEC is read back from any surrounding text with no earlier match. |
| `VtecParser.DocumentedExample` | internal/nws/vtec.go:3-20 | The documented example reads as documented, with its event id. |
| `VtecParser.EventIDInjective` | internal/nws/vtec.go:66-68 | Two ids agree exactly when office, phenomenon, significance and number do; an id is never empty and holds no NUL. |
| `VtecParser.ParseValuesMeaning` | internal/nws/vtec.go:80-114 | Absent if and only if every value is blank, parsed if and only if some value matches, and then from the first that does. |
| `VtecParser.ParseVTEC` | internal/nws/vtec.go:80-114 | Missing if and only if the VTEC key is absent or all its values are blank; found only with the first value that holds a P-VTEC; drift only when none does. |

## Left out

- HTTP transport, JSON decoding, pgx, PostGIS and R2 writes: foreign calls, modelled by the result they return; a request that cannot be built, and a stored row whose JSON does not decode, are not modelled.
- RFC 3339 parsing and the integer parsing of Retry-After: their results are optional values.
- Schema migration and its advisory lock: the guarantee is the database's.
- A statement or a committed transaction is one atomic step at one clock reading; the database stamps a transaction with its start time, and isolation between overlapping transactions is the database's promise.
- AlertStore.DegradedRefinesTransaction: one clock for all rows, as the statement of refinement needs; the original reads its clocks row by row. `Fleet` lets every insert and every retirement have its own.
- Storm motion, SPC report parsing and the storm-report batch: field trimming, and a simpler copy of the alert batch.
- Severity, headline, description, geometry and storm motion of a snapshot row: copied through, or left out above.
- The FIPS table, the state allowlist, Mode parsing and the health endpoint: finite lookups; the first two are function parameters.
- Unicode case folding and spaces: ASCII only. On ASCII the lower-case search for a tornado hazard and the upper-case one here agree.
- 64-bit overflow of durations: integers are unbounded.
- Schedule.Run: requires a positive interval, and that logging one missed slot takes less than an interval; otherwise the skip loop need not end.
- The startup jitter and the immediate first poll of the loop: the model starts at the clock reading after them.
- TimedFanout.ClockIsBounded: a goroutine acts as soon as it can and only puts take time; scheduling delay and the time to filter and to count a failure are not modelled.
- Client.RetriesStayInBudget: sleeps are exact.
- Heartbeat.HeartbeatVouchesForRows: speaks of the table as the confirmed upsert left it; what other nodes and purges do to it afterwards is the subject of `Fleet`.
- Heartbeat.Poller.Poll: the merged put enters as its result, which `PublishPhase.PublishSnapshot` gives; a panic in it unwinds the cycle like one in the upsert and is not modelled apart.
- Text columns of the table hold no NUL, as PostgreSQL enforces.
- Logging, the health pinger, signal handling and the rest of `main`: plumbing.
