# CitrineOS: message correlation, recorder, replication, metering and configuration, proved in Dafny

This project models seven parts of CitrineOS and proves what they promise. `dafny verify dfyconfig.toml` checks all
of it.

**OCPP message correlation** (`Messages`, `Correlation`, `CorrelationRuns`, `CorrelationTriggers`). Two database
triggers pair each CALL with the CALLRESULT or CALLERROR that answers it (OCPP 2.0.1 Part 4, sections 4.2.1 to 4.2.3).
`Messages` says what one insert writes; `Correlation` proves the laws of serial inserts and compares the split triggers
with the single trigger they replaced; `CorrelationRuns` is a step system of concurrent transactions, one step per SQL
statement, with a lock on an arbitrary (possibly colliding) hash of the key and aborts anywhere. The central result is
that every commit does to the committed table exactly what the trigger does when it runs alone, so the serial laws
hold under every interleaving. NULL columns are modelled: SQL `=` on NULL never matches.

**The mock eMSP's recorder** (`Json`, `Recorder`, `RecorderLaws`, `MemoryStore`). A capped buffer, an index by id and
a registry of waiters. The store's laws hold for any matcher; `Recorder.TheMatcher` is the source's filter. Each wait
is proved to end as a recursive verdict over the later operations says.

**Change notifications and their receiver** (`Notify`, `Replica`). Row-level deltas and the receiver that merges them.

**Energy totals** (`Meter`, `MeterLaws`, `MeterValueUtils`). Numbers are reals. Each meter value has a sampled value.

**The status cache** (`StatusCache`), **configuration** (`ConfigOverlay`, `EnvOverrides`, `EnvLaws`, `EnvVariables`),
**registration tokens** (`Credentials`) and **station references** (`StationRefs`).

Where the code and its comments differ, the model follows the code:

- The comment in `apps/mock-msp/src/core/Store.ts:222-225` says that the last buffered entry always holds the highest
  sequence number. Numbers are drawn when a request is opened, and entries are made when it is recorded, so the comment
  holds exactly if no request is recorded after one opened later (`RecorderLaws.LastIsMaxIffRecordedInOrder`); two
  overlapping requests can cross (`RecorderLaws.CrossingRun`).
- The split CALL trigger does not look at a link the CALL brings along, the original trigger did; they differ exactly
  there (`Correlation.DeferredOriginalMatchesSplit`).
- Neither trigger looks at a response that brings its own link, which can make two responses share a CALL
  (`Correlation.SharedCall`); `Correlation.InsertKeepsPaired` says exactly when.
- Unregistering from our side leaves the accepted token accepted, a DELETE from the CPO's side does not
  (`Credentials.AcceptedTokenDiesExactly`).

Assumptions. Concurrent inserts bring no `requestMessageId` of their own, message rows are not deleted or updated by
anything else, and a transaction inserts one message. Transactions run at READ COMMITTED: each statement sees what is
committed when it starts. With one snapshot per transaction the lookup after the lock would be stale. Clocks do not
run backwards. Minted tokens are fresh. Rows of one table have the same columns, an `id` among them and none called
`tenant`. Station names do not change.

## Model

| member | source | states |
|---|---|---|
| Messages.FindCall | apps/ocpp-server/migrations/20260806120000-fix-ocpp-message-correlation-trigger.ts:77-91 | a response's lookup finds the unclaimed CALL of its key that every other one comes before, and finds none only if there is none |
| Messages.FindResponse | apps/ocpp-server/migrations/20260806120000-fix-ocpp-message-correlation-trigger.ts:115-125 | a CALL's lookup finds the unlinked response of its key that comes before every other one, and finds none only if there is none |
| Correlation.LookupsInColumns | apps/ocpp-server/migrations/20260806120000-fix-ocpp-message-correlation-trigger.ts:77-125 | in columns: the lookups find the newest CALL that no row names, and the oldest response that names none, of equal keys without NULL, ties by id, or none if there is none |
| Correlation.InsertKeepsPaired | apps/ocpp-server/migrations/20260806120000-fix-ocpp-message-correlation-trigger.ts:67-136 | one insert, whatever link it brings, keeps links typed, within one key and injective and misses no pair, exactly if it brings no link or is a response naming an unclaimed CALL of its key |
| Correlation.AlwaysPairedIffHarmless | apps/ocpp-server/migrations/20260806120000-fix-ocpp-message-correlation-trigger.ts:67-136 | a serial run keeps that throughout exactly if each of its inserts is of that kind |
| Correlation.SharedCall | apps/ocpp-server/migrations/20260806120000-fix-ocpp-message-correlation-trigger.ts:143-148 | a second response that brings a link to an answered CALL gets in, and then two responses share the CALL |
| Correlation.UnlockedLinkRaces | apps/ocpp-server/migrations/20260806120000-fix-ocpp-message-correlation-trigger.ts:21-24 | a link brought along and stored between a response's lookup and its insert breaks the pairing exactly if both name the same CALL |
| Correlation.InsertOnlyAddsLinks | apps/ocpp-server/migrations/20260806120000-fix-ocpp-message-correlation-trigger.ts:127-132 | an insert changes a stored row only by linking an unlinked response of the key to the new CALL |
| Correlation.SerialRow | apps/ocpp-server/migrations/20260806120000-fix-ocpp-message-correlation-trigger.ts:93-96 | after any serial run a row is the sent message, or, if it was an unlinked response, differs in two columns: it names a stored CALL of its columns, and has that CALL's action if it was sent none |
| Correlation.LinkCount | apps/ocpp-server/migrations/20260806120000-fix-ocpp-message-correlation-trigger.ts:67-136 | per key there are as many links as the smaller of the numbers of CALLs and responses |
| Correlation.EitherOrder | apps/ocpp-server/migrations/20260806120000-fix-ocpp-message-correlation-trigger.ts:104-105 | a lone CALL and its response leave the same table in either arrival order: both as sent, but for the response's link and missing action |
| Correlation.LonePair | apps/ocpp-server/migrations/20260806120000-fix-ocpp-message-correlation-trigger.ts:67-136 | in any serial run a key with one CALL and one response ends as one linked pair |
| Correlation.StaleCallDoesNotSwallow | apps/ocpp-server/migrations/20260806120000-fix-ocpp-message-correlation-trigger.ts:86-90 | a response never links to a CALL older than another unclaimed one of its key |
| Correlation.LongestWaitingIsAdopted | apps/ocpp-server/migrations/20260806120000-fix-ocpp-message-correlation-trigger.ts:123-132 | a CALL links the longest-waiting response and leaves later ones unlinked |
| Correlation.DeferredOriginalMatchesSplit | apps/ocpp-server/migrations/20260730120000-add-ocpp-message-correlation-trigger.ts:41-108 | with the foreign key deferred the original trigger stores the same table as the split ones, except exactly for a CALL that brings its own link while a response waits |
| Correlation.ImmediateOriginalFailsExactly | apps/ocpp-server/migrations/20260730120000-add-ocpp-message-correlation-trigger.ts:61-82 | with the foreign key checked per statement the original fails exactly at a CALL whose response is stored, and the split triggers never fail |
| Correlation.SplitComputesTheOriginal | apps/ocpp-server/migrations/20260730120000-add-ocpp-message-correlation-trigger.ts:41-108 | over every serial run both versions reject the same logs, and store the same table exactly if no CALL brought its own link while a response of its key waited |
| Correlation.CleanLogsAgree | apps/ocpp-server/migrations/20260730120000-add-ocpp-message-correlation-trigger.ts:41-108 | without links brought along nothing is rejected and the tables are equal |
| CorrelationRuns.OtherKeysDoNotMatter | apps/ocpp-server/migrations/20260806120000-fix-ocpp-message-correlation-trigger.ts:77-85 | an insert under another key changes neither a lookup's candidates nor their rows |
| CorrelationRuns.CommitIsSerial | apps/ocpp-server/migrations/20260806120000-fix-ocpp-message-correlation-trigger.ts:21-24 | each commit does to the committed table what the trigger does when it runs alone at that moment |
| CorrelationRuns.NextKeepsInv | apps/ocpp-server/migrations/20260806120000-fix-ocpp-message-correlation-trigger.ts:45-161 | every step of every transaction keeps the inductive invariant, whatever the lock hash |
| CorrelationRuns.Serializable | apps/ocpp-server/migrations/20260806120000-fix-ocpp-message-correlation-trigger.ts:45-161 | in every reachable state the committed table is that of the committed inserts in commit order |
| CorrelationRuns.NoInterleavingMissesAPair | apps/ocpp-server/migrations/20260806120000-fix-ocpp-message-correlation-trigger.ts:21-24 | no reachable committed table holds an unclaimed CALL and an unlinked response of one key |
| CorrelationRuns.EveryInterleavingLinksAll | apps/ocpp-server/migrations/20260806120000-fix-ocpp-message-correlation-trigger.ts:67-136 | under every interleaving links are a partial injection within a key, as many as possible |
| CorrelationRuns.LinksAreForever | apps/ocpp-server/migrations/20260806120000-fix-ocpp-message-correlation-trigger.ts:71-134 | committed rows stay, and a committed link or action is never rewritten later in a run |
| CorrelationRuns.CommittedRow | apps/ocpp-server/migrations/20260806120000-fix-ocpp-message-correlation-trigger.ts:93-96 | the same of each committed message in every reachable state |
| CorrelationRuns.LoneExchange | apps/ocpp-server/migrations/20260806120000-fix-ocpp-message-correlation-trigger.ts:104-105 | under every interleaving one CALL and one response of a key end as one linked pair |
| CorrelationRuns.SomeoneCanAdvance | apps/ocpp-server/migrations/20260806120000-fix-ocpp-message-correlation-trigger.ts:41-63 | the lock never deadlocks: while transactions are in flight one of them can take its next step |
| CorrelationRuns.EverySerialRunIsARun | apps/ocpp-server/migrations/20260806120000-fix-ocpp-message-correlation-trigger.ts:45-161 | any messages without links of their own, in any order, are the log of some run |
| CorrelationRuns.NothingIsForced | apps/ocpp-server/migrations/20260806120000-fix-ocpp-message-correlation-trigger.ts:45-63 | at any moment any new message can be inserted and any transaction can fail, which gives up its rows |
| CorrelationTriggers.MessageTable.SelectCall | apps/ocpp-server/migrations/20260806120000-fix-ocpp-message-correlation-trigger.ts:77-91 | returns the newest unclaimed CALL of the key, if there is one |
| CorrelationTriggers.MessageTable.SelectResponse | apps/ocpp-server/migrations/20260806120000-fix-ocpp-message-correlation-trigger.ts:115-125 | returns the oldest unlinked response of the key, if there is one |
| CorrelationTriggers.MessageTable.CorrelateResponse | apps/ocpp-server/migrations/20260806120000-fix-ocpp-message-correlation-trigger.ts:67-99 | the BEFORE INSERT trigger links NEW to a candidate CALL, column by column, if there is one, and it is the one that the insert law demands |
| CorrelationTriggers.MessageTable.CorrelateCall | apps/ocpp-server/migrations/20260806120000-fix-ocpp-message-correlation-trigger.ts:107-135 | the AFTER INSERT trigger links one candidate response, column by column, if there is one, and leaves the table that the insert law demands |
| CorrelationTriggers.MessageTable.Insert | apps/ocpp-server/migrations/20260806120000-fix-ocpp-message-correlation-trigger.ts:143-162 | an insert through both triggers is the insert law, or is rejected by the foreign key and changes nothing |
| CorrelationTriggers.MessageTable.InsertOriginal | apps/ocpp-server/migrations/20260730120000-add-ocpp-message-correlation-trigger.ts:35-110 | an insert through the single trigger is the original's law, foreign key deferred or not |
| Json.SubsetReflexive | apps/mock-msp/src/core/Store.ts:34-44 | every JSON tree matches itself |
| Json.SubsetTransitive | apps/mock-msp/src/core/Store.ts:34-44 | subset matching is transitive on all JSON trees |
| Json.SubsetIsFit | apps/mock-msp/src/core/Store.ts:34-44 | a needle matches exactly if some choice of elements gives each of its paths a place in the target: the same scalar, or a container of the same kind |
| Json.DeepContainsReflexive | apps/mock-msp/src/core/Store.ts:47-52 | every JSON tree deeply contains itself |
| Json.DeepContainsTransitive | apps/mock-msp/src/core/Store.ts:47-52 | deep containment is transitive on all JSON trees |
| Json.DeepContainsIsSomePath | apps/mock-msp/src/core/Store.ts:46-52 | the search succeeds exactly if the needle matches the subtree at some path |
| RecorderLaws.RecordKeepsWindow | apps/mock-msp/src/core/Store.ts:198-206 | the buffer stays the last 10000 accepted exchanges, or all while they fit |
| RecorderLaws.BufferStep | apps/mock-msp/src/core/Store.ts:198-206 | recording an unbuffered id appends it, from the 10001st on at the cost of the oldest, and only a reset empties the buffer |
| RecorderLaws.RecordKeepsIndex | apps/mock-msp/src/core/Store.ts:199-205 | the index keeps holding exactly the buffered exchanges under their ids |
| RecorderLaws.RecordKeepsWakeups | apps/mock-msp/src/core/Store.ts:284-296 | after recording, nothing buffered matches a registered waiter |
| RecorderLaws.ReachableInv | apps/mock-msp/src/core/Store.ts:198-296 | window, index, no lost wakeup and one fate per ticket hold in every reachable state |
| RecorderLaws.SettledForever | apps/mock-msp/src/core/Store.ts:284-296 | a settled wait never changes its outcome |
| RecorderLaws.WaitIsAnsweredOnce | apps/mock-msp/src/core/Store.ts:234-260 | after any later run a wait holds the lowest buffered match, else the first later match, timeout or reset, and is registered exactly while it has no outcome |
| RecorderLaws.AnswerIsLowest | apps/mock-msp/src/core/Store.ts:237-243 | the immediate answer is a buffered match with the lowest number, and is missing only if nothing matches |
| RecorderLaws.QueryIsSortedFilter | apps/mock-msp/src/core/Store.ts:211-216 | an unpaged query returns each match as often as it is buffered and nothing else, in order of their numbers |
| RecorderLaws.CriteriaCombine | apps/mock-msp/src/core/Store.ts:55-93 | an exchange passes a filter exactly if it passes each criterion alone |
| RecorderLaws.ColumnCriteria | apps/mock-msp/src/core/Store.ts:56-63 | what each criterion on a column asks for, the cursor inclusive; nothing if it is absent or empty |
| RecorderLaws.DeeperCriteria | apps/mock-msp/src/core/Store.ts:64-91 | what pattern, parties and body ask for; a malformed pattern lets nothing pass |
| RecorderLaws.PageHolds | apps/mock-msp/src/core/Store.ts:213-215 | a page is the entries of the unpaged result from the offset on, as many as the limit or as there are |
| RecorderLaws.PageDefaults | apps/mock-msp/src/core/Store.ts:213-214 | without an offset a page starts at 0, without a limit it goes to the end |
| RecorderLaws.SliceFromBack | apps/mock-msp/src/core/Store.ts:215 | a negative bound counts from the back and stops at the front |
| RecorderLaws.PagesTile | apps/mock-msp/src/core/Store.ts:213-215 | consecutive pages are consecutive pieces of one result |
| RecorderLaws.StrongerBodyShrinksQuery | apps/mock-msp/src/core/Store.ts:81-88 | asking for a body that contains the old one can only shrink a query's result |
| RecorderLaws.LastIsMaxIffRecordedInOrder | apps/mock-msp/src/core/Store.ts:222-232 | over every run of requests, resets and waits, `maxSeq` is the highest number after each event exactly if no exchange is recorded after one opened later |
| RecorderLaws.InOrderMaxSeq | apps/mock-msp/src/core/Store.ts:230-232 | in number order the buffer is sorted and maxSeq is its true maximum, 0 if it is empty |
| RecorderLaws.InOrderQuery | apps/mock-msp/src/core/Store.ts:211-216 | in number order an unpaged query keeps the buffer's own order |
| RecorderLaws.CrossingRun | apps/mock-msp/src/core/Store.ts:222-232 | two crossing requests make maxSeq name the lower number |
| MemoryStore.MemoryStore.Record | apps/mock-msp/src/core/Store.ts:198-209 | in place, recording is the store law and keeps the invariant |
| MemoryStore.MemoryStore.WakeWaiters | apps/mock-msp/src/core/Store.ts:284-296 | settles exactly the matching waiters and keeps the others in order |
| MemoryStore.MemoryStore.WaitForReceived | apps/mock-msp/src/core/Store.ts:234-260 | in place, waiting is the store law and keeps the invariant |
| MemoryStore.MemoryStore.Expire | apps/mock-msp/src/core/Store.ts:248-256 | a timer settles its own wait and removes only that waiter |
| MemoryStore.MemoryStore.Reset | apps/mock-msp/src/core/Store.ts:266-275 | a reset empties buffer and index and settles every registered wait |
| MemoryStore.MemoryStore.Query | apps/mock-msp/src/core/Store.ts:211-216 | returns the page of the sorted matches that JavaScript's slice gives |
| MemoryStore.MemoryStore.Get | apps/mock-msp/src/core/Store.ts:218-220 | finds an exchange by id exactly if it is buffered |
| Notify.SilentIffRequiredOnly | apps/ocpi-server/migrations/20250730123502_notification_transaction.ts:31-40 | an update is suppressed exactly if only required columns changed |
| Notify.DeltaIsComplete | apps/ocpi-server/migrations/20250730123502_notification_transaction.ts:27-43 | patching the old row with the notification gives the new row |
| Notify.DeltaIsMinimal | apps/ocpi-server/migrations/20250730123506_notification_location.ts:28-45 | a notification carries exactly the required and the changed columns, with their new values |
| Notify.QuietColumns | apps/ocpi-server/migrations/20260615000000_notification_add_ocpp_connection_name.ts:23-77 | the columns whose changes alone each trigger passes over, for transactions, locations, connectors and EVSEs |
| Notify.MissingTenant | apps/ocpi-server/migrations/20250730123502_notification_transaction.ts:25 | a missing tenant is null in a transaction's notification and absent from the others |
| Notify.NullData | apps/ocpi-server/migrations/20250730123502_notification_transaction.ts:27-43 | the data is NULL exactly if something changed in a row without required columns |
| Notify.WideningExactly | apps/ocpi-server/migrations/20260615000000_notification_add_ocpp_connection_name.ts:19-71 | one more required column silences exactly the updates in which it was the only change worth sending, and else adds that column to the payload |
| Notify.ConnectionNameWidening | apps/ocpi-server/migrations/20250730123507_notification_connector.ts:11-66 | while the connection name does not change, the widened triggers notify on the same updates with the same payload and the name |
| Notify.Channel.RowInserted | apps/ocpi-server/migrations/20250730123502_notification_transaction.ts:24-25 | an insert sends the row and its tenant, once |
| Notify.Channel.RowUpdated | apps/ocpi-server/migrations/20250730123502_notification_transaction.ts:26-51 | an update sends what the delta law says, or nothing |
| Replica.Receiver.Patch | apps/mock-msp/src/modules/sessions.ts:63-73 | PATCH merges onto the object held, or stores the patch if none is |
| Replica.Receiver.Read | apps/mock-msp/src/modules/locations.ts:80-88 | a receiver in step with a table answers for exactly its rows, and its answers follow them |
| Replica.Receiver.Deliver | apps/mock-msp/src/modules/sessions.ts:55-73 | delivering a change's notification, in place, is the replica's step and keeps it in step with the table |
| Replica.StepStaysInStep | apps/mock-msp/src/modules/locations.ts:62-77 | after every change the replica agrees on non-required columns, and right after a notification on all |
| Replica.EveryHistoryIsFollowed | apps/mock-msp/src/modules/sessions.ts:55-73 | the same from an empty table, for any interleaved row histories delivered in order |
| Replica.AllTriggersAreFollowed | apps/ocpi-server/migrations/20260615000000_notification_add_ocpp_connection_name.ts:19-71 | the same for the transaction, location, connector and EVSE triggers, old and widened |
| Replica.ReplicaHoldsLastNotified | apps/ocpi-server/migrations/20250730123502_notification_transaction.ts:31-51 | after any run each object is its row as of that row's last notification, with the tenant sent last, so it is exact exactly if the row has not changed since |
| MeterLaws.FirstUnphasedDecides | packages/base/src/util/MeterValueUtils.ts:167-180 | the first unphased value of a measurand decides its reading |
| MeterLaws.ReadingFallsBack | packages/base/src/util/MeterValueUtils.ts:99-107 | an unphased value beats line phases, line phases beat phase-to-neutral, and Net has no phases |
| MeterLaws.OneValue | packages/base/src/util/MeterValueUtils.ts:167-210 | what one sampled value counts for, by measurand and phase |
| MeterLaws.FallsBackToPhases | packages/base/src/util/MeterValueUtils.ts:99-107 | without an unphased energy value only the phased ones count |
| MeterLaws.PhasesAddUp | packages/base/src/util/MeterValueUtils.ts:188-236 | phased values add up, but line phases silence a list without any |
| MeterLaws.PhaseOrderIsIrrelevant | packages/base/src/util/MeterValueUtils.ts:188-236 | the order of the phases in a meter value does not matter |
| MeterLaws.ValidReadings | packages/base/src/util/MeterValueUtils.ts:83-89 | only meter values count whose first value has no context or begin, periodic or end |
| MeterLaws.MeterStartMeans | packages/base/src/util/MeterValueUtils.ts:63-76 | the meter start is the earliest register reading, if there is one |
| MeterLaws.MultiplierScales | packages/base/src/util/MeterValueUtils.ts:243-265 | one more power of ten is ten times as much, for any unit and any signed multiplier |
| MeterLaws.UnitAnchors | packages/base/src/util/MeterValueUtils.ts:247-262 | spelled in any letter case, kilo-units count as they are, base units and no unit as thousandths, and anything else not at all |
| MeterLaws.ReadingsLastWins | packages/base/src/util/MeterValueUtils.ts:96-113 | a map entry is the reading of the last meter value of its time that has one |
| MeterLaws.SortedEnds | packages/base/src/util/MeterValueUtils.ts:272-276 | the sorted values begin with the earliest reading and end with the latest |
| MeterLaws.SumAny | packages/base/src/util/MeterValueUtils.ts:48-52 | the sum of the intervals is any one of them and the sum of the rest |
| MeterLaws.TotalMeans | packages/base/src/util/MeterValueUtils.ts:34-60 | the total is the register's ends, else the sum of all intervals, else the latest net reading |
| MeterLaws.RegisterStreaming | packages/base/src/util/MeterValueUtils.ts:29-76 | for later readings the total needs of the past only its meter start |
| MeterLaws.IntervalSplitting | packages/base/src/util/MeterValueUtils.ts:48-52 | adding two interval batches of disjoint times one after the other is adding both at once |
| MeterLaws.TotalIgnoresOrder | packages/base/src/util/MeterValueUtils.ts:29-61 | with one meter value per time, listing order changes neither total nor meter start |
| MeterLaws.UnitsDoNotMatter | packages/base/src/util/MeterValueUtils.ts:243-265 | writing kilo-unit readings in base units changes neither total nor meter start |
| MeterValueUtils.GetValuesMap | packages/base/src/util/MeterValueUtils.ts:96-158 | the map-building loop computes the map of last readings |
| MeterValueUtils.SumPhasedValues | packages/base/src/util/MeterValueUtils.ts:188-236 | the summing loops compute the phase sum, which is the reading of a meter value of phases only |
| MeterValueUtils.GetTotalKwh | packages/base/src/util/MeterValueUtils.ts:29-61 | the method computes the total that the laws are about |
| StatusCache.AtMostOneInFlight | apps/mock-msp/src/control/statusCache.ts:97-115 | under any events at most one probe of a source is in flight |
| StatusCache.ValueIsLastResolved | apps/mock-msp/src/control/statusCache.ts:102-109 | the value shown is the last one resolved, so failures never erase it |
| StatusCache.HistoryDecides | apps/mock-msp/src/control/statusCache.ts:97-115 | error, value and both times after any run, as the events so far say |
| StatusCache.SnapshotStartsExactly | apps/mock-msp/src/control/statusCache.ts:90-100 | after any run a snapshot starts one probe exactly if none is in flight and the source has rested since its last settlement |
| StatusCache.PollingGoesOn | apps/mock-msp/src/control/statusCache.ts:143-150 | between probes, a snapshot past the longest rest always starts one, whatever happened before |
| StatusCache.HasuraRests | apps/mock-msp/src/control/statusCache.ts:118-123 | the Hasura query rests 5 s |
| StatusCache.OcpiRests | apps/mock-msp/src/control/statusCache.ts:124-129 | the OCPI probe rests 10 s if the CPO was up, else 5 s |
| StatusCache.DockerRests | apps/mock-msp/src/control/statusCache.ts:130-135 | the docker probe rests 30 s if docker could be asked, else 60 s |
| StatusCache.PollingRate | apps/mock-msp/src/control/statusCache.ts:90-150 | snapshots alone start at most 1 + T/minTTL probes in any window of T ms |
| StatusCache.DockerRate | apps/mock-msp/src/control/statusCache.ts:130-135 | at most 1 + T/30000 docker probes |
| StatusCache.OcpiRate | apps/mock-msp/src/control/statusCache.ts:124-129 | at most 1 + T/5000 OCPI probes |
| StatusCache.HasuraRate | apps/mock-msp/src/control/statusCache.ts:118-123 | at most 1 + T/5000 Hasura queries, whatever they return |
| StatusCache.RefreshIsNotPaced | apps/mock-msp/src/control/statusCache.ts:161-163 | forced refreshes are not bound by the TTL |
| StatusCache.Source.Kick | apps/mock-msp/src/control/statusCache.ts:97-100 | starts a probe unless one is in flight |
| StatusCache.Source.Snapshot | apps/mock-msp/src/control/statusCache.ts:147-153 | for one source: shows the value held, says if it is missing or erring, and starts a probe only when due |
| StatusCache.Cache.Snapshot | apps/mock-msp/src/control/statusCache.ts:143-160 | shows the three values held without waiting, is stale exactly if some source is missing or erring, and starts exactly the due probes |
| StatusCache.Source.OnResolve | apps/mock-msp/src/control/statusCache.ts:102-106 | a resolved probe replaces the value and clears the error |
| StatusCache.Source.OnReject | apps/mock-msp/src/control/statusCache.ts:107-109 | a rejected probe sets the error and nothing else |
| StatusCache.Source.OnFinally | apps/mock-msp/src/control/statusCache.ts:110-113 | a completed probe is stamped and makes room for the next |
| ConfigOverlay.MergedLeaves | packages/base/src/config/defineConfig.ts:188-222 | the leaves of a merge are exactly those of the original and those of the defaults that fall into its gaps |
| ConfigOverlay.MergedContainers | packages/base/src/config/defineConfig.ts:188-222 | the same for objects and arrays, empty ones included |
| ConfigOverlay.OriginalLeavesSurvive | packages/base/src/config/defineConfig.ts:179-183 | every defined leaf of the original survives at its path |
| ConfigOverlay.MergeIdempotent | packages/base/src/config/defineConfig.ts:188-222 | merging the same defaults again changes nothing |
| EnvOverrides.MergeConfigFromEnvVars | packages/base/src/config/defineConfig.ts:77-145 | the loop passes over unset, empty and foreign variables and applies the others, resolved and parsed, one after the other |
| EnvOverrides.Split | packages/base/src/config/defineConfig.ts:91-92 | a name's parts hold no underscore and join to the name again |
| EnvVariables.SplitOfJoin | packages/base/src/config/defineConfig.ts:92 | splitting undoes joining names without underscores |
| EnvVariables.VariableSetsItsLeaf | packages/base/src/config/defineConfig.ts:77-140 | prefix and path, joined by underscores in any letter case, set exactly the schema leaf at that path that no name in another case displaces, unless a section conflicts |
| EnvVariables.LeafResolves | packages/base/src/config/defineConfig.ts:32-69 | such a leaf is found segment by segment, through optionals and arrays |
| EnvVariables.MappedIsLeaf | packages/base/src/config/defineConfig.ts:40-69 | each leaf of the key map is a leaf of the schema |
| EnvVariables.OthersArePassedOver | packages/base/src/config/defineConfig.ts:85-91 | unset, empty and foreign variables are as good as absent |
| EnvVariables.LaterVariableWins | packages/base/src/config/defineConfig.ts:85-140 | of two variables of one leaf the later decides |
| EnvVariables.SectionKinds | packages/base/src/config/defineConfig.ts:109-122 | sections on the way keep their kind, and created ones are objects |
| EnvVariables.EmptySegment | packages/base/src/config/defineConfig.ts:100-107 | a doubled underscore names no section |
| EnvVariables.BelowALeaf | packages/base/src/config/defineConfig.ts:123-131 | below a leaf only the indices of its name lead on |
| EnvVariables.StrayKeys | packages/base/src/config/defineConfig.ts:130-135 | a last segment that names no leaf writes a key of its own, not a section |
| EnvLaws.KeyMapNames | packages/base/src/config/defineConfig.ts:40-69 | however keys displace one another, the key map has distinct names at every level and files each leaf under its name in lower case |
| EnvLaws.ResolvesToLeaf | packages/base/src/config/defineConfig.ts:98-131 | segments that lead to a schema leaf resolve to the path of a leaf with those names, case aside |
| EnvLaws.VariablesAreApart | packages/base/src/config/defineConfig.ts:92-131 | two variables that name leaves write to equal paths or to paths apart |
| EnvLaws.OrderIsIrrelevant | packages/base/src/config/defineConfig.ts:77-140 | environment variables that name different leaves of a schema give the same configuration in any order |
| EnvLaws.LastOneWins | packages/base/src/config/defineConfig.ts:133-138 | of two values for one leaf the later one stays, and nothing of the earlier |
| EnvLaws.EveryLeaf | packages/base/src/config/defineConfig.ts:77-140 | after the whole environment a schema leaf that a variable names holds its value unless a section on the way conflicts, and every other leaf is as before |
| EnvLaws.OwnLeaf | packages/base/src/config/defineConfig.ts:109-138 | a variable's leaf holds its value exactly if no section on the way conflicts, and else nothing changes |
| EnvLaws.OtherPathsUntouched | packages/base/src/config/defineConfig.ts:94-138 | everything at a path apart from the variable's own is untouched |
| EnvLaws.UnknownSegment | packages/base/src/config/defineConfig.ts:101-107 | an unknown segment writes no leaf |
| EnvLaws.EmptySectionLeftBehind | packages/base/src/config/defineConfig.ts:109-122 | a variable with an unknown segment creates the sections before it, and changes nothing exactly if one conflicts or none was missing |
| Credentials.ReplacedTokenStaysDead | apps/mock-msp/src/core/auth.ts:67-94 | under every interleaving of handshakes, a token that was accepted and then replaced is never accepted again on a functional route |
| Credentials.FailedHandshakeLeavesNoToken | apps/mock-msp/src/core/client.ts:344-445 | under every interleaving a minted token is accepted only once its own handshake's answer is adopted; if that fails, nothing is written and the token is never accepted in the whole run |
| Credentials.HandshakeTakesEffect | apps/mock-msp/src/core/client.ts:363-445 | what a successful rotation, registration and inbound handshake leave: the one token accepted, the one presented, and the state |
| Credentials.WhoIsAccepted | apps/mock-msp/src/core/auth.ts:67-94 | functional routes accept the accepted token alone, registration routes the handshake's too |
| Credentials.RefusedAtOnce | apps/mock-msp/src/modules/credentials.ts:154-159 | a POST is refused while registered, a rotation while not or without an address, other starts never |
| Credentials.OnTheWay | apps/mock-msp/src/core/client.ts:322-342 | discovery and the handshake's token write their own part of the registration only |
| Credentials.EachHandshakeGoesOn | apps/mock-msp/src/core/client.ts:344-445 | a started handshake waits for its own answer, whatever others do, and ends with it |
| Credentials.Unregistered | apps/mock-msp/src/core/client.ts:482-488 | after unregistering from either side nothing is left to present or call |
| Credentials.AcceptedTokenDiesExactly | apps/mock-msp/src/modules/credentials.ts:129-188 | the accepted token dies exactly at a completed inbound handshake, an inbound DELETE or an adopted answer, so not when we unregister |
| StationRefs.Own | apps/ocpp-server/migrations/20260427000000-rename-charging-station-columns.ts:264-274 | the lookup finds the station of the row's name and tenant exactly if there is one |
| StationRefs.Migration.Backfill | apps/ocpp-server/migrations/20260330100000-add-charging-station-pk-id.ts:210-238 | the backfill goes through exactly if it leaves no orphan, then refers each row to its own station where there is one, is consistent exactly if each named row has one, and else changes nothing; earlier partial runs included |
| StationRefs.WriteChildExactly | apps/ocpp-server/migrations/20260427000000-rename-charging-station-columns.ts:264-293 | when an insert or update of a child row succeeds, what row it stores, and when it keeps references right: exactly if it brings none, the row has no name, or the reference is its own |
| StationRefs.InsertStationExactly | apps/ocpp-server/migrations/20260330100000-add-charging-station-pk-id.ts:195-199 | a station is stored, and nothing else changes, exactly if its tenant has none of its name |
| StationRefs.DeletableIffNoSetNullRows | apps/ocpi-server/seeders/20250822120003-basic-objects.ts:241-248 | a station is deletable exactly if no SET NULL row references it |
| StationRefs.DeleteKeeps | apps/ocpp-server/migrations/20260330100000-add-charging-station-pk-id.ts:231-237 | a delete that goes through removes the CASCADE rows only and keeps references right |
| StationRefs.RunKeeps | apps/ocpp-server/migrations/20260427000000-rename-charging-station-columns.ts:264-293 | over every run of writes, new stations and deletes each named row references the one station of its name and tenant, exactly if no write brings another's reference |

## Left out

- CorrelationRuns.Begin: a message that brings its own `requestMessageId` is not part of a concurrent run: its link is
  stored without the lock of the CALL's key, and then two responses can share a CALL although neither lookup nor link
  was wrong when it was made (`Correlation.UnlockedLinkRaces` says exactly when). Serial runs include such messages.
- CorrelationRuns.NextKeepsInv: covers the messages that `Begin` admits.
- Row locks (`FOR UPDATE`) and the foreign key's own locks: within the triggers they are taken only under the advisory
  lock of the same key.
- Json.MatchesSubset: keys inherited from JavaScript prototypes, which `in` also sees, are not modelled.
- Recorder.MatchesFilter: regular expressions and upper-casing are parameters of the model.
- Recorder.Store: an exchange is a value, so later changes of a recorded object are not seen; findings and the domain
  state, which no other field depends on, are not part of the store, nor are the near misses of a timeout's message.
- Replica.Receiver: bodies are objects, as the request schemas demand; the OCPI mappers between the notification and
  the request are not part of this model, and keys are taken as given rather than joined from path segments.
- MeterValueUtils.GetTotalKwh: rounding of floating-point numbers, timestamps that do not parse, and a null start.
- ConfigOverlay.Merge: works on values; the schema parse that yields the defaults is not modelled.
- EnvOverrides.Apply: works on values, so writing through to the input's nested objects is not captured; an array's
  `length`, and names that JavaScript objects and strings inherit, are not special.
- EnvOverrides.Setting: JSON parsing is a parameter.
- EnvLaws.OrderIsIrrelevant: variables that resolve to equal targets are excluded, since of those the last one wins
  (`EnvLaws.LastOneWins`), and so are variables that name no leaf.
- Credentials.Apply: store resets, scenario loads, `reregister`, the discovered endpoint lists and time stamps.
- StationRefs.Deletes: children of children, and stations whose name or tenant is updated.
- Tariff replication, whose payload goes through a mapper that is not part of this model.
- Fault rules, the dashboard, the OCPI modules not named above, start-up and transport code: easy or without logic.
