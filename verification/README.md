# Verified model of the exam platform's core protocols

A Dafny model of the parts of the exam platform that are hard to get right by reading: the
durable admission queue, the receipts of dangerous attempt commands, the slot databases that
parallel test workers share, the grading engine, the client-event metadata checks, and the
retried transaction. `dafny verify dfyconfig.toml` checks the whole project.

## How it is built

| files | what they model |
|---|---|
| `AdmissionSchedule`, `AdmissionTable`, `AdmissionCommands` | batch arithmetic, the membership table with its database constraints, the repository and the commands on it |
| `AdmissionProtocol`, `AdmissionOrder`, `AdmissionRequests`, `AdmissionCapacity` | every read and the compare-and-set of a reconciliation as separate interleaved steps; what joins in order add; what that has to do with the commands; when the capacity bound holds |
| `AdmissionViews`, `AdmissionPreview` | the operator listing; the wait count of the candidate's view |
| `JsValues`, `JsonText`, `JsRecords`, `CanonicalPayload`, `AttemptReceipts` | JavaScript records, the JSON printer (sections 4 to 7 of RFC 8259), assignment and enumeration order, canonical payload equality, the receipt protocol |
| `TestScope`, `RunLease`, `Bootstrap`, `BootstrapProcess`, `FixtureCache` | slot names, the run lease, the double-checked bootstrap, one process's call, the per-file fixture cache |
| `Grading` | scoring of questions and attempts |
| `MetadataDepth`, `ClientMetadata` | the bounded depth walk, the UTF-8 length (section 3 of RFC 3629), redaction |
| `Transactions` | the error-cause search and the retry loop |
| `Prelude`, `Sorting`, `Text` | options and results, insertion sort by a strict order, UTF-16 text, trimming |

Concurrency is modelled by transition systems: a label names one step, a run is any sequence of
labels, and "reachable" means reachable by some run from the empty state. One SQL statement and one
committed transaction are one step each. Where the source works by mutation, the model has classes
and loops (`AdmissionRepository`, `SlotServer`, `WorkerProcess`, `Database`, the position map, the
depth walk, the counting and record-filling loops), each proved against a specification function, and the laws
are proved about that function.

## Hypotheses, stated once

- `batchSize` and `batchInterval` are at least 1, as the exam contract demands.
- Capacity, stale reads, overtaking and the reported wait (`AdmissionOrder`, `AdmissionRequests`)
  assume that a new membership's (joined_at, id) key comes after those of its exam: joins in order.
  Everything in `AdmissionProtocol` holds for every run. `SmallerKeyBreaksCapacity` and `StaleReadBreaksCapacity` show that the
  hypothesis is needed, `JoinKeepsOrdinalsIffBehindAll` that it is exactly what keeps the ordinals,
  and `CapacityForeverIffDemandFits` says without it exactly which worlds are safe.
- No clock is assumed: each request carries an instant of its own, possibly stale. The order of the
  three timestamps holds exactly when the instants written are timely (`OrderedThroughoutIffTimely`).
- The enrollment lock is not assumed; starts may interleave, and a start that finds nothing to
  consume aborts.
- Workers of one invocation that live at the same time have different pool ids.

## Where the code and its description part ways

The model follows the code, and each item names the theorem that says when the two agree.

- Canonical payload equality does not see own members called `__proto__` at any level, because the
  sorted copy is filled by assignment; otherwise it is equality up to key order
  (`PayloadsEqualIffSame`, `ConfusedWithStrippedIffProto`).
- A successful bootstrap leaves exactly the journal's migration count if and only if the slot was
  missing, up to date, or behind without unaccounted tables. A slot ahead of the journal, or one
  whose migration ends in a swallowed duplicate-table error, also counts as success
  (`SuccessLeavesJournalIffAdoptable`).
- The lifecycle lock excludes per coordination database and goes with its session. While sessions are
  kept, two processes can both reach CREATE DATABASE of one slot exactly when they use different
  coordination databases (`CollisionIffAuthoritiesDiffer`); when a holder's session may end while it
  works, any two processes of the slot can (`CollisionIffTwoOwners`, `CreatedTwiceIff`).
- A dropped slot is bootstrapped again only by processes that hold no memo of it; the others answer
  from the memo (`DroppedSlotProbedIffNoMemo`).
- When the server cannot be reached, the API setup throws but the database-package setup only warns
  and goes on without a lease. Two package runs started while the server comes up therefore truncate
  each other's slots (`UnreachableServerLetsRunsCollide`, `PlainRunsCollide`). A lease goes with its
  session: a run that has lost it lets a second one in (`LostSessionLetsRunsCollide`). Otherwise no run
  truncates another's slot (`TruncationHitsOtherIff`, `LeasedInvocationsNeverTruncateEachOther`).
- Sibling workers share a slot under a dedicated API group, and in the database package whenever
  `TEST_WORKER_ID` is set; local slot names ignore the shard (`TruncationHitsOtherIff`,
  `SlotNameInjective`).
- A duplicate command that loses the race is refused instead of answered when its attempt has
  meanwhile gone to a state it cannot plan for (`RacingDuplicateAnsweredIff`).
- A fixture's cleanup is documented as idempotent; repeated while a newer fixture is cached it evicts
  that one (`SingleOwnerIffNoStaleCleanup`, `StaleCleanupLeaksConnection`). Cleanup also clears the
  cache before the connection is closed, so a call in between opens a second one
  (`OneConnectionIffNotBeside`).
- `waitCount` is the position minus the released count. It is the number of candidates ahead who are
  not yet admitted only under the condition of `WaitCountIsWaitingAheadIff`;
  `WaitCountCountsTheAdmitted` is a queue where it is not.
- With a stale instant a membership can be admitted before it joined, on paper
  (`StepOrderedIffTimely`).
- The wait estimate is exact only from the anchor on (`WaitEstimateExactIffAnchorReached`).
- `measureDepth` counts a primitive leaf as a level, against its comment: it gives the documented
  depth exactly when every deepest container is empty, and one more otherwise
  (`MeasuresDocumentedDepthIff`), so a documented depth of five can be rejected
  (`DocumentedDepthFiveRejected`). By the walk's count redaction is complete up to seven levels and can
  fail from eight on (`CompletenessEndsAtEightLevels`).

## Modelling choices

- Ids compare by UTF-16 code units both in the table and in the operator listing.
- Scores are reals. Numbers in JSON values are given by the parts of their shortest decimal text.
- Lower-casing is any map on code units.
- A fresh membership id is a parameter. Server faults are parameters of each step.
- jsonb storage may reorder the keys of a stored payload and change nothing else.
- A crash ends an invocation together with its workers; the session of a lease or of the lifecycle
  lock may also end alone. A crash inside a DDL statement is not modelled.
- A transaction that throws has not committed. An admission made inside a start that aborts is rolled
  back with it; in the protocol that request is abandoned before its decision commits.
- What the engine makes of an attempt during a force-submit is arbitrary; only what passes the
  postcondition commits.

## Model

| member | source | states |
|---|---|---|
| `AdmissionSchedule.EligibleIffWithinCount` | packages/exam-engine/src/admissionCommands.ts:141-162 | ceil(k/B) <= released batches exactly when k <= released count, for every ordinal, instant and policy |
| `AdmissionSchedule.BatchReleasedFrom` | packages/exam-engine/src/admissionCommands.ts:141-157 | the release as a timetable: nothing without an anchor, the first batch at once, batch b from b - 1 intervals after the anchor |
| `AdmissionSchedule.EligibleFromInstant` | packages/exam-engine/src/admissionCommands.ts:141-162 | the instant from which an ordinal is due, in closed form |
| `AdmissionSchedule.ReleaseMonotone` | packages/exam-engine/src/admissionCommands.ts:141-157 | released batches and count never shrink with time |
| `AdmissionSchedule.WaitEstimateExact` | packages/exam-engine/src/admissionCommands.ts:278-290 | from the anchor on, the estimate is zero exactly when eligible, is long enough, and is not an interval too long |
| `AdmissionSchedule.WaitEstimateExactIffAnchorReached` | packages/exam-engine/src/admissionCommands.ts:245-290 | a positive estimate is enough if and only if the anchor has been reached |
| `AdmissionTable.ScheduleDependsOnKeys` | packages/exam-engine/src/admissionCommands.ts:71-106 | anchor and ordinals depend on the queue keys alone, not on admission or consumption |
| `AdmissionTable.JoinKeepsOrdinalsIffBehindAll` | packages/exam-engine/src/admissionCommands.ts:174-189 | a fresh join keeps every ordinal if and only if its key is behind all of its exam |
| `AdmissionTable.JoinBehindKeepsSchedule` | packages/exam-engine/src/admissionCommands.ts:71-106 | a join behind all keeps every row, ordinal and anchor |
| `AdmissionCommands.AdmissionRepository.FindActive` | packages/db/src/repository/examAdmissionRepo.ts:132-152 | the one unconsumed membership of the candidate, or none |
| `AdmissionCommands.AdmissionRepository.EarliestJoinedAt` | packages/db/src/repository/examAdmissionRepo.ts:154-172 | minimum joined_at over all memberships of the exam, consumed ones included |
| `AdmissionCommands.AdmissionRepository.CountAllAhead` | packages/db/src/repository/examAdmissionRepo.ts:174-200 | a scan of the rows counts the memberships of any state strictly ahead of a key, so the ordinal is one more |
| `AdmissionCommands.AdmissionRepository.CountActiveAhead` | packages/db/src/repository/examAdmissionRepo.ts:202-229 | a scan of the rows counts the active memberships strictly ahead of a key, so the position is one more |
| `AdmissionCommands.AdmissionRepository.InsertActive` | packages/db/src/repository/examAdmissionRepo.ts:84-104 | the insert takes effect exactly when the candidate has no active membership, and keeps the constraints |
| `AdmissionCommands.RoundKeeps` | packages/db/src/repository/examAdmissionRepo.ts:82-127 | what a round keeps and what its result means; without result it met a serialization failure or saw a membership of the candidate consumed |
| `AdmissionCommands.AdmissionRepository.JoinRound` | packages/db/src/repository/examAdmissionRepo.ts:82-127 | one insert and one read, with others moving before each, come to the round's specification |
| `AdmissionCommands.AdmissionRepository.JoinActive` | packages/db/src/repository/examAdmissionRepo.ts:55-130 | whatever others commit between its statements: a row returned is the active membership, at most one row is inserted and it is the one returned, and not converging costs three serialization failures or consumptions |
| `AdmissionCommands.UnknownErrorThrownIff` | packages/db/src/repository/examAdmissionRepo.ts:82-130 | an unknown error of an insert is thrown exactly when its round is reached, and the join gives up exactly when all three rounds leave no result |
| `AdmissionCommands.AdmissionRepository.AdmitOnce` | packages/db/src/repository/examAdmissionRepo.ts:231-245 | writes admitted_at only if it is unset, and says whether it did |
| `AdmissionCommands.AdmissionRepository.ConsumeActive` | packages/db/src/repository/examAdmissionRepo.ts:247-273 | consumes the active admitted membership with its attempt, or changes nothing |
| `AdmissionCommands.JoinAdmissionQueue` | packages/exam-engine/src/admissionCommands.ts:212-224 | a successful join leaves the candidate with the returned active membership; alone it always succeeds, and joining twice is joining once |
| `AdmissionCommands.ReconcileAdmission` | packages/exam-engine/src/admissionCommands.ts:305-342 | the new table is the reconciled table, and the result is the candidate's active row in it |
| `AdmissionCommands.EnsureStartAdmission` | packages/exam-engine/src/admissionCommands.ts:355-366 | passes if and only if the active membership was admitted or is due now, and then the durable fact exists |
| `AdmissionCommands.ReadQueue` | packages/exam-engine/src/admissionCommands.ts:239-277 | row, anchor, ordinal and position, each as the table stood at its own statement |
| `AdmissionCommands.PreviewAdmissionStatus` | packages/exam-engine/src/admissionCommands.ts:233-291 | the reported view, field by field, in terms of what each of its four statements saw, its state by the timestamps of the row; it writes nothing |
| `AdmissionCommands.GateAfterReconcile` | packages/exam-engine/src/admissionCommands.ts:305-366 | the gate is open after a reconciliation exactly when it was open or the membership was due |
| `AdmissionCommands.ReportedWaitIsExact` | packages/exam-engine/src/admissionCommands.ts:278-341 | reconciling after the reported wait opens the gate, one interval earlier does not |
| `AdmissionProtocol.StepKeepsGrounded` | packages/exam-engine/src/admissionCommands.ts:293-366 | every step of every request, whatever the joins, keeps the constraints, the consumed memberships in step with the starts, and every row a request has read in the table |
| `AdmissionProtocol.RunKeepsGrounded` | packages/exam-engine/src/admissionCommands.ts:293-366 | the same over whole runs, with no membership, key or timestamp ever lost |
| `AdmissionOrder.StepKeepsInvariant` | packages/exam-engine/src/admissionCommands.ts:293-366 | with joins in order every step keeps admissions on schedule, the schedule of every membership, and what other requests have read of it |
| `AdmissionOrder.RunKeepsInvariant` | packages/exam-engine/src/admissionCommands.ts:293-366 | the same over whole runs |
| `AdmissionOrder.BoundedOrdinalsBoundCount` | packages/exam-engine/src/admissionCommands.ts:174-189 | memberships whose ordinals fit a bound are no more than the bound |
| `AdmissionOrder.CapacityNeverExceeded` | packages/exam-engine/src/admissionCommands.ts:141-342 | in every world reached with joins in order and at every instant, memberships admitted by then are at most the released count |
| `AdmissionOrder.StaleReadsStaySound` | packages/exam-engine/src/admissionCommands.ts:293-342 | a decision from values read earlier is the decision the current table gives |
| `AdmissionOrder.ReadsOutliveInterleaving` | packages/exam-engine/src/admissionCommands.ts:71-106 | no run of other steps with joins in order moves a membership's ordinal or the anchor |
| `AdmissionOrder.NobodyOvertakes` | packages/exam-engine/src/admissionCommands.ts:174-189 | whoever is ahead of an admitted membership was eligible at its admission |
| `AdmissionProtocol.MembershipLifecycle` | packages/db/src/schema/pg.ts:2285-2315 | in every reachable world, whatever the joins: one active membership per candidate, consumed only after admitted, one consumed membership per committed start |
| `AdmissionProtocol.TimestampsWrittenOnce` | packages/exam-engine/src/admissionCommands.ts:51-127 | no run, whatever its joins, changes or erases a timestamp |
| `AdmissionProtocol.GateImpliesDurableFact` | packages/exam-engine/src/admissionCommands.ts:341-366 | an admitted row in a request's hands is in the table, even for the loser of the race |
| `AdmissionProtocol.DecisionOutcome` | packages/exam-engine/src/admissionCommands.ts:336-342 | where a decision leaves its request and its membership: not due, due and first, due and too late; nothing else moves |
| `AdmissionProtocol.LoserFailsClosed` | packages/exam-engine/src/admissionCommands.ts:341-366 | a due request whose membership is admitted already returns exactly the row it had read, not admitted, and its start changes neither the table nor the starts |
| `AdmissionProtocol.StartTakesEffectIff` | packages/exam-engine/src/attemptCommands.ts:456-469 | a start takes effect exactly when the request holds an admitted row and the active membership is admitted; it then consumes that membership at its instant for its attempt |
| `AdmissionProtocol.DecisionLeavesDurableFact` | packages/exam-engine/src/admissionCommands.ts:323-341 | once a decision to admit has committed the durable fact exists, whoever wrote it |
| `AdmissionProtocol.StartConsumesOneAdmitted` | packages/exam-engine/src/attemptCommands.ts:456-470 | a start either changes nothing or consumes exactly one active admitted membership of its candidate |
| `AdmissionProtocol.StepOrderedIffTimely` | packages/exam-engine/src/admissionCommands.ts:323-341 | a step keeps joined <= admitted <= consumed if and only if the instant it writes is not before the one it builds on |
| `AdmissionProtocol.OrderedThroughoutIffTimely` | packages/exam-engine/src/admissionCommands.ts:51-127 | the order holds throughout a run if and only if every write in it was timely |
| `AdmissionRequests.UninterruptedRequestIsReconcile` | packages/exam-engine/src/admissionCommands.ts:305-342 | the protocol's steps of one request, run without interruption, are the command: same table, same result |
| `AdmissionRequests.WaitPromiseSurvivesRuns` | packages/exam-engine/src/admissionCommands.ts:245-341 | a reported wait is still exact after any run of other requests |
| `AdmissionRequests.PreviewWaitIsTheWait` | packages/exam-engine/src/admissionCommands.ts:239-290 | the wait in a preview whose four statements interleave with other requests is the wait of the table at each of them |
| `AdmissionRequests.JoinIsProtocolRun` | packages/db/src/repository/examAdmissionRepo.ts:55-130 | a join in company that follows the protocol is a run of it, the others' steps and at most one join step, and returns the active membership that run leaves |
| `AdmissionCapacity.CapacityForeverIffDemandFits` | packages/exam-engine/src/admissionCommands.ts:141-342 | for every world any run reaches: no continuation of interleaved requests, starts and joins in order exceeds the release if and only if at every instant the memberships admitted, due, or claimed by requests in flight fit it |
| `AdmissionCapacity.CapacityForeverIffTableFits` | packages/exam-engine/src/admissionCommands.ts:141-342 | with no request in flight, if and only if the admitted and the due fit |
| `AdmissionCapacity.OnScheduleFits` | packages/exam-engine/src/admissionCommands.ts:293-342 | worlds with admissions on schedule and fresh reads, so all that joins behind each other reach, are safe forever |
| `AdmissionCapacity.SmallerKeyBreaksCapacity` | packages/exam-engine/src/admissionCommands.ts:174-189 | a run from the empty queue: a same-millisecond join under a smaller id gets two admitted where one was released |
| `AdmissionCapacity.StaleReadBreaksCapacity` | packages/exam-engine/src/admissionCommands.ts:305-342 | a run from the empty queue whose table fits while a stale request in flight still breaks the bound |
| `AdmissionViews.FillPositions` | packages/exam-engine/src/admissionCommands.ts:388-404 | the position map has exactly the active rows, each with its rank |
| `AdmissionViews.DeriveAdmissionViews` | packages/exam-engine/src/admissionCommands.ts:385-414 | for any row order, each row shows consumed, waiting or admitted by its own two timestamps; each active row gets one more than the active rows ahead, each consumed row none |
| `AdmissionViews.RankIsCountAhead` | packages/exam-engine/src/admissionCommands.ts:388-404 | the index in the sorted active rows is the count of active rows ahead |
| `AdmissionViews.PositionsAreOneToN` | packages/exam-engine/src/admissionCommands.ts:385-414 | the positions given out are exactly 1..n |
| `AdmissionViews.OperatorAgreesWithCandidate` | packages/exam-engine/src/admissionCommands.ts:191-206 | the operator's position is the position the candidate is shown |
| `AdmissionPreview.PreviewReportsWaitCount` | packages/exam-engine/src/admissionCommands.ts:280-284 | the reported wait count is the one the next two rows speak of |
| `AdmissionPreview.WaitCountIsWaitingAheadIff` | packages/exam-engine/src/admissionCommands.ts:39-50 | the wait count is the number of waiting candidates ahead if and only if one more than the admitted ahead are released, or nobody waits ahead and at least that many are |
| `AdmissionPreview.WaitCountCountsTheAdmitted` | packages/exam-engine/src/admissionCommands.ts:280-284 | a run from the empty queue after which the two differ |
| `JsonText.PrintUnique` | packages/domain/src/attemptCommandPayload.ts:86-88 | the printed text of a value can be read off any longer text it begins |
| `JsonText.PrintInjective` | packages/domain/src/attemptCommandPayload.ts:86-88 | equal JSON texts exactly for equal values |
| `JsonText.PrintIsJsonText` | packages/domain/src/attemptCommandPayload.ts:86-88 | the text of every kind of value as sections 4 to 7 of RFC 8259 write it, escapes included, said without the printer |
| `CanonicalPayload.SortKeysCanonical` | packages/domain/src/attemptCommandPayload.ts:68-78 | equal sorted forms exactly for values equal up to key order, without `__proto__` members |
| `CanonicalPayload.SortKeysIgnoresProto` | packages/domain/src/attemptCommandPayload.ts:68-78 | `__proto__` members do not survive sorting |
| `CanonicalPayload.PayloadsEqualIffSame` | packages/domain/src/attemptCommandPayload.ts:68-88 | for all jsonb values, payload equality is equality up to key order at every level, `__proto__` members aside |
| `CanonicalPayload.PayloadsEqualIffSameJson` | packages/domain/src/attemptCommandPayload.ts:68-88 | without such members it is equality up to key order |
| `CanonicalPayload.ConfusedWithStrippedIffProto` | packages/domain/src/attemptCommandPayload.ts:68-88 | a value is confused with a different one by dropping members exactly when it has a `__proto__` member |
| `CanonicalPayload.SortKeysLoop` | packages/domain/src/attemptCommandPayload.ts:68-78 | the recursion with its record-filling loop computes the sorted form |
| `CanonicalPayload.FillSortedRecord` | packages/domain/src/attemptCommandPayload.ts:72-76 | assigning sorted keys one by one gives the record in enumeration order |
| `JsRecords.PutIsAssignment` | packages/domain/src/attemptCommandPayload.ts:72-76 | one assignment to a record: the new member, every other as it was, nothing else, in enumeration order, a known key in its place |
| `JsRecords.IndexKeysAreNumbers` | packages/domain/src/attemptCommandPayload.ts:72-76 | the keys enumerated first are the decimal texts of the numbers below 2^32 - 1 |
| `JsRecords.IndexOrderIsNumeric` | packages/domain/src/attemptCommandPayload.ts:72-76 | and they are enumerated in numeric order |
| `AttemptReceipts.CanonicalizeIgnoresPadding` | packages/domain/src/attemptCommandPayload.ts:104-134 | padded free text gives the same canonical request or the same refusal |
| `AttemptReceipts.CanonicalizeIdempotent` | packages/domain/src/attemptCommandPayload.ts:104-134 | canonicalizing a canonical request changes nothing |
| `AttemptReceipts.PayloadDeterminesRequest` | packages/domain/src/attemptCommandPayload.ts:104-134 | equal payloads exactly for equal trimmed text and severity |
| `AttemptReceipts.ReceiptsRecordCommittedFacts` | apps/api/src/orchestrators/forceSubmitExecution.ts:345-463 | over every run, and whatever the engine does, each receipt was committed at one step by a request: submitted with no grading time exactly for manual grading, graded at the request's instant otherwise; no_change with the attempt's own times; misconduct with the request's actor, severity, trimmed notes and instant |
| `AttemptReceipts.FirstRequestExecutes` | apps/api/src/orchestrators/forceSubmitExecution.ts:552-755 | a first request under a free key on an attempt it can be carried out on, with the engine leaving it as demanded, ends executed with a receipt that tells what it did |
| `AttemptReceipts.BlankRefusedIff` | packages/domain/src/attemptCommandPayload.ts:104-134 | a command is refused exactly when its free text is white space alone |
| `AttemptReceipts.PayloadText` | packages/domain/src/attemptCommandPayload.ts:104-134 | the payload of a padded text, member by member |
| `AttemptReceipts.BlankRequestWritesNothing` | packages/domain/src/attemptCommandPayload.ts:104-134 | a blank request ends invalid and writes nothing |
| `AttemptReceipts.ClassifierDecidesMatch` | packages/domain/src/attemptCommandPayload.ts:199-222 | replay exactly for the same command, attempt and payload up to key order; otherwise the first difference |
| `AttemptReceipts.StepKeepsInvariant` | apps/api/src/orchestrators/forceSubmitExecution.ts:877-944 | every step of racing requests keeps receipts immutable and effects single |
| `AttemptReceipts.ReceiptsImmutableEffectsOnce` | apps/api/src/orchestrators/forceSubmitExecution.ts:552-755 | over every run receipts never change and an operation's effect is applied at most once |
| `AttemptReceipts.AnswersAgree` | packages/contracts/src/attempt.ts:498-524 | all successful answers to one operation carry the same fact for the same command |
| `AttemptReceipts.FinishedRequestsAccounted` | apps/api/src/orchestrators/forceSubmitExecution.ts:766-815 | recovery after a lost insert always finds the winner; a conflict has a receipt that differs |
| `AttemptReceipts.RetryReplaysOrConflicts` | packages/domain/src/attemptCommandPayload.ts:183-222 | a retry replays the original fact verbatim if and only if it means the same command; otherwise it conflicts; neither writes |
| `AttemptReceipts.RacingDuplicateAnsweredIff` | apps/api/src/orchestrators/forceSubmitExecution.ts:569-815 | a duplicate that lost the race is answered by the classifier if and only if its attempt can still be planned for, and refused otherwise; it writes nothing |
| `TestScope.SlotNameInjective` | packages/db/src/testScope.ts:447-460 | a slot name determines the CI flag, the worker and, in CI, the shard |
| `TestScope.CharactersListed` | packages/db/src/testScope.ts:95-112 | worker ids, shard numbers and database names, character by character |
| `TestScope.ApiSlotInjective` | packages/db/src/testScope.ts:286-355 | API slots of ordinary groups coincide exactly for equal dimensions |
| `TestScope.ApiSlotsCoincideIff` | packages/db/src/testScope.ts:447-460 | API slots coincide exactly for equal dimensions or the same dedicated group |
| `TestScope.PackageSlotInjective` | packages/db/src/testScope.ts:408-429 | package slots coincide exactly for equal dimensions, whatever the API group |
| `TestScope.SlotNamespacesDisjoint` | packages/db/src/testScope.ts:393-429 | no API slot is a package slot, for every pair of environments |
| `TestScope.ApiSiblingsDistinctIff` | packages/db/src/testScope.ts:167-202 | API siblings own different slots exactly without explicit worker id and dedicated group |
| `TestScope.PackageSiblingsDistinctIff` | packages/db/src/testScope.ts:408-429 | package siblings own different slots exactly without explicit worker id |
| `TestScope.ApiSlotFromSettings` | packages/db/src/testScope.ts:167-355 | exactly when raw settings give an API slot, and its name |
| `TestScope.FailsWithFirstRefusal` | packages/db/src/testScope.ts:167-355 | resolution fails with the first thing that is wrong in the order the settings are looked at, succeeds when nothing is, and gives no slot exactly in file-schema mode |
| `TestScope.PackageSlotFromSettings` | packages/db/src/testScope.ts:408-429 | exactly when raw settings give a package slot, and its name |
| `RunLease.StepKeepsInvariant` | packages/db/src/testInfraLock.ts:410-445 | setup on a reachable or unreachable server, spawn, stop, teardown and loss of a session keep leases with live invocations; exactly the unreached and the lost lack one |
| `RunLease.TeardownEndsRun` | packages/db/vitest.globalSetup.ts:104-107 | after a teardown the invocation, its workers and its lease are gone and everything of the others is as it was |
| `RunLease.NextRunGetsIn` | packages/db/src/testInfraLock.ts:431-445 | after the holder's teardown the next accepted run of its server and suite gets in and holds the lease |
| `RunLease.SetupSucceedsIff` | packages/db/src/testInfraLock.ts:389-445 | a worker-database run gets in on a reachable server exactly when its settings are accepted, TEST_ADMIN_DATABASE does not point away and no live run of its server and suite holds the lease; otherwise nothing changes |
| `RunLease.WorkerSpawnsIff` | packages/db/src/testScope.ts:296-355 | a worker of a live run starts exactly with a free place and settings that name a database, and works in the one they name |
| `RunLease.FileSchemaNeedsNoLease` | packages/db/vitest.globalSetup.ts:91-103 | a file-schema run is never turned away for a lease and takes none |
| `RunLease.UnreachableSetup` | packages/db/vitest.globalSetup.ts:108-118 | an unreachable server turns an API run away and lets a package run in without a lease |
| `RunLease.SmallSteps` | packages/db/src/testInfraLock.ts:431-445 | the loss of a session and the end of a worker change just that |
| `RunLease.SettingsRead` | packages/db/src/testInfraLock.ts:389-403 | what the settings mean in terms of their raw, trimmed values |
| `RunLease.LeaseExclusive` | packages/db/src/testInfraLock.ts:389-445 | of two live worker-database invocations of one server and suite one is without lease; those are the package runs set up on an unreachable server and the runs whose session has ended |
| `RunLease.SuitesDisjoint` | packages/db/src/testScope.ts:393-429 | workers of different suites never share a slot |
| `RunLease.SiblingsShareIff` | apps/api/vitest.parallelism.ts:58-69 | exactly which settings make siblings share a slot |
| `RunLease.TruncationHitsOtherIff` | packages/db/vitest.globalSetup.ts:76-118 | a truncation hits another live worker's slot exactly for siblings of a collapsing invocation, or for two invocations of one suite of which one is without lease and whose slots have equal dimensions |
| `RunLease.LeasedInvocationsNeverTruncateEachOther` | packages/db/vitest.globalSetup.ts:86-108 | where every invocation has kept its lease, none truncates another's slot |
| `RunLease.LostSessionLetsRunsCollide` | packages/db/src/testInfraLock.ts:418-445 | any two invocations of one suite can end in one slot once the first has lost its lease session |
| `RunLease.UnreachableServerLetsRunsCollide` | packages/db/vitest.globalSetup.ts:109-117 | any two package invocations set up on an unreachable server can end in one slot |
| `RunLease.PlainRunsCollide` | packages/db/vitest.globalSetup.ts:109-117 | the run without any settings: both workers in `exam_test_db_w1` |
| `Bootstrap.AtMostOneInCriticalSection` | packages/db/src/testInfraLock.ts:255-290 | over every interleaving at most one process per coordination database, of those that keep their lock session, runs DDL |
| `Bootstrap.LockHeldOnlyInside` | packages/db/src/testInfraLock.ts:255-290 | the lock is held only by a process inside the critical section |
| `Bootstrap.HolderAlwaysReleases` | packages/db/src/testInfraLock.ts:273-289 | in any run, however others interleave and whatever fails, a holder that takes its remaining steps is outside without the lock |
| `Bootstrap.ReleasedAfterSix` | packages/db/src/testInfraLock.ts:273-289 | left to itself a holder is outside without the lock after at most six steps, whatever fails |
| `Bootstrap.LockTurn` | packages/db/src/testInfraLock.ts:190-197 | a call that asks for the lock fails only by its own server call, changes nothing while the lock is held, and takes it when free |
| `Bootstrap.CallWaitsIffLockHeld` | packages/db/src/testInfraLock.ts:255-270 | in any run a call stays where it is if and only if each of its turns finds the lock held and its own server call goes through |
| `Bootstrap.CallEndsMemoizedIffReady` | packages/db/src/testWorkerDatabase.ts:408-454 | in any run a call ends memoized exactly after a ready probe or a clean release, otherwise the next call starts over; the slot is settled after a ready probe, and after a clean release of a safe run |
| `Bootstrap.DroppedSlotProbedIffNoMemo` | packages/db/src/testWorkerDatabase.ts:336-350 | in every reachable world a dropped slot is probed again by the next call if and only if the process holds no memo |
| `Bootstrap.DropTurn` | packages/db/src/testWorkerDatabase.ts:336-350 | a drop that fails leaves every database, one that goes through takes the slot and nothing else |
| `Bootstrap.CreateNeverCollides` | packages/db/src/testWorkerDatabase.ts:244-259 | at CREATE DATABASE the slot is still missing in a safe run: one process owns it, or its processes share a coordination database and keep their sessions |
| `Bootstrap.CreatedAtMostOnce` | packages/db/src/testWorkerDatabase.ts:244-313 | in a safe run CREATE statements issued for a slot are accounted for by drops and what exists; without drops at most one, none if it existed |
| `Bootstrap.SuccessLeavesJournalIffAdoptable` | packages/db/src/testWorkerDatabase.ts:372-454 | after success the slot exists, with the journal's count if and only if it was adoptable |
| `Bootstrap.CollisionIffAuthoritiesDiffer` | packages/db/src/testInfraLock.ts:255-290 | with lock sessions kept, some run creates an existing slot if and only if two of its processes use different coordination databases |
| `Bootstrap.CollisionIffTwoOwners` | packages/db/src/testInfraLock.ts:267-289 | over all runs, lost sessions included, if and only if the slot has two processes |
| `Bootstrap.CreatedTwiceIff` | packages/db/src/testInfraLock.ts:255-290 | a missing slot can get two CREATE statements without a drop under the same two conditions |
| `BootstrapProcess.SlotServer.IsBootstrapped` | packages/db/src/testWorkerDatabase.ts:372-402 | true exactly for an existing slot at the journal's count with no error |
| `BootstrapProcess.SlotServer.EnsureDatabaseExistsUnlocked` | packages/db/src/testWorkerDatabase.ts:244-259 | creates the slot exactly when it is missing |
| `BootstrapProcess.SlotServer.MigratePostgres` | packages/db/src/postgres.ts:87-107 | brings the slot to its migrated state or fails without change |
| `BootstrapProcess.WorkerProcess.EnsureBootstrapped` | packages/db/src/testWorkerDatabase.ts:408-454 | lock free on return, memo exactly on success, other databases untouched, memoized slots stay settled |
| `BootstrapProcess.WorkerProcess.BootstrapOnce` | packages/db/src/testWorkerDatabase.ts:417-446 | check, lock, re-check, ensure, migrate, release come to the call's outcome |
| `BootstrapProcess.CallIsProtocolRun` | packages/db/src/testWorkerDatabase.ts:408-454 | every call, with any faults, is a run of the interleaved protocol with the same outcome, memo, lock and slot |
| `FixtureCache.ResetOnceBeforeFirstUse` | packages/db/src/testDb.ts:242-287 | over every run no fixture is handed out before a finished reset, one reset finishes, and none starts after first use |
| `FixtureCache.FailureEvictedForGood` | packages/db/src/testDb.ts:244-254 | over every run a failed opening, once its rejection is seen, is never again the cached one, and no rejection evicts a usable one |
| `FixtureCache.NextCallServed` | packages/db/src/testDb.ts:242-277 | with nothing cached the next call is handed a fresh fixture, after a reset exactly when none has been performed |
| `FixtureCache.FailedCallRetried` | packages/db/src/testDb.ts:244-254 | after a failed opening or reset the next call opens anew and the reset is still to be done |
| `FixtureCache.CallsShareOpening` | packages/db/src/testDb.ts:242-256 | while an opening is cached every call shares it, until it is evicted or a cleanup runs |
| `FixtureCache.CleanupCloses` | packages/db/src/testDb.ts:278-286 | cleaning an open fixture up closes it and empties the cache, and nothing else |
| `FixtureCache.SingleOwnerIffNoStaleCleanup` | packages/db/src/testDb.ts:278-286 | a step keeps every usable fixture the cached one if and only if it is not a repeated cleanup under a newer fixture |
| `FixtureCache.SingleOwnerThroughoutIff` | packages/db/src/testDb.ts:242-287 | the same throughout a run, if and only if it has no such cleanup |
| `FixtureCache.StaleCleanupLeaksConnection` | packages/db/src/testDb.ts:282-285 | a concrete run with two usable connections |
| `FixtureCache.OneConnectionIffNotBeside` | packages/db/src/testDb.ts:282-285 | a step keeps the file at one connection, closing ones included, if and only if it is not a call that finds the cache empty beside one |
| `FixtureCache.CallDuringCloseOverlaps` | packages/db/src/testDb.ts:282-285 | a concrete run of that kind without any repeated cleanup |
| `Grading.MultipleChoiceIsSetScore` | packages/domain/src/gradingEngine.ts:36-65 | sorted de-duplicated comparison scores as the set specification, for all answers |
| `Grading.MultipleChoiceLaws` | packages/domain/src/gradingEngine.ts:41-65 | order, repetition and noise do not matter; more correct choices never cost; a wrong one costs all |
| `Grading.SplitBarInvertsJoin` | packages/domain/src/gradingEngine.ts:81-88 | splitting alternatives undoes joining them with bars |
| `Grading.JoinInvertsSplitBar` | packages/domain/src/gradingEngine.ts:81-88 | joining the bar-free parts gives the standard back |
| `Grading.BlankCreditIff` | packages/domain/src/gradingEngine.ts:67-89 | a blank earns credit exactly when some alternative that is not blank equals, or in keyword mode occurs in, the candidate's trimmed text, case folded unless the rule says that case matters |
| `Grading.RecordCreditIff` | packages/domain/src/gradingEngine.ts:95-114 | in record form credit exactly when there is an entry and every entry of the standard is earned by the candidate's member of its key |
| `Grading.AppendedAlternative` | packages/domain/src/gradingEngine.ts:72-89 | appending an alternative adds exactly that alternative |
| `Grading.ExactImpliesKeyword` | packages/domain/src/gradingEngine.ts:72-89 | exact-mode credit implies keyword-mode credit |
| `Grading.BlankStandardAcceptsNothing` | packages/domain/src/gradingEngine.ts:72-89 | white space and bars alone accept nothing |
| `Grading.CandidatePaddingIgnored` | packages/domain/src/gradingEngine.ts:67-70 | white space around the candidate's text does not matter |
| `Grading.OnlyStandardKeysMatter` | packages/domain/src/gradingEngine.ts:95-114 | in record form only the standard's keys are looked at |
| `Grading.QuestionCredit` | packages/domain/src/gradingEngine.ts:129-148 | what each kind of question earns, in terms of equality, sets and blanks, with the question's id, maximum and both answers in the result |
| `Grading.GradeAnswersIsPerQuestion` | packages/domain/src/gradingEngine.ts:232-256 | one result per question in order on the last record of each, total and pass by their sum |
| `Grading.TotalBounded` | packages/domain/src/gradingEngine.ts:232-256 | the total lies between zero and the sum of the maximum scores |
| `Grading.OnlyLastRecordsMatter` | packages/domain/src/gradingEngine.ts:232-256 | answer lists with the same last records grade alike |
| `Grading.UnknownRecordChangesNothing` | packages/domain/src/gradingEngine.ts:232-256 | a record for a question outside the attempt changes nothing in the result, wherever it stands |
| `MetadataDepth.MeasureDepth` | packages/contracts/src/clientEvent.ts:43-59 | terminates on every graph; the height when a finite unfolding of at most 5001 nodes exists, infinite otherwise |
| `MetadataDepth.UnfoldingUnique` | packages/contracts/src/clientEvent.ts:43-59 | a node has at most one finite unfolding |
| `ClientMetadata.ThreePassLengthIsUtf8` | packages/contracts/src/clientEvent.ts:72-77 | the three replacements give the UTF-8 length for every string, three bytes per unpaired surrogate |
| `ClientMetadata.EncoderWritesUtf8` | packages/contracts/src/clientEvent.ts:72-77 | the encoding that length is compared with consists of the bytes of section 3 of RFC 3629, code point by code point, U+FFFD for an unpaired surrogate |
| `ClientMetadata.MetadataAccepted` | packages/contracts/src/clientEvent.ts:106-136 | accepted exactly with at most five levels, at most 5001 nodes and at most 32768 UTF-8 bytes of JSON |
| `ClientMetadata.MeasuresDocumentedDepthIff` | packages/contracts/src/clientEvent.ts:38-59 | the walk measures the documented depth of a container if and only if every deepest container is empty, and one more otherwise |
| `ClientMetadata.DocumentedDepthFiveRejected` | packages/contracts/src/clientEvent.ts:38-59 | five nested objects around a number: documented depth 5, measured 6, over the limit |
| `ClientMetadata.RedactLeavesNothing` | packages/contracts/src/sanitizeClientEvent.ts:37-88 | full redaction leaves no denylisted key unredacted at any depth |
| `ClientMetadata.RedactByPaths` | packages/contracts/src/sanitizeClientEvent.ts:52-88 | at every path of keys and indices the redacted value holds what stood there, the placeholder at a denylisted key, and nothing anywhere else |
| `ClientMetadata.RedactKeepsInnocent` | packages/contracts/src/sanitizeClientEvent.ts:52-88 | a value with nothing to redact or drop comes back as it is |
| `ClientMetadata.AcceptedMetadataFullyRedacted` | packages/contracts/src/sanitizeClientEvent.ts:52-88 | for accepted metadata the capped walk leaves no denylisted key unredacted and keeps everything else, path by path |
| `ClientMetadata.SensitiveKeysRedacted` | packages/contracts/src/sanitizeClientEvent.ts:16-88 | the same for the words of the denylist, forwards and backwards |
| `ClientMetadata.SensitiveMemberRedacted` | packages/contracts/src/sanitizeClientEvent.ts:16-88 | any member whose folded key contains one of the eleven words holds the placeholder |
| `ClientMetadata.CompletenessEndsAtEightLevels` | packages/contracts/src/sanitizeClientEvent.ts:66-84 | seven levels are always redacted completely, at eight a denylisted key comes through |
| `ClientMetadata.SanitizeIdempotent` | packages/contracts/src/sanitizeClientEvent.ts:52-88 | sanitizing twice is sanitizing once, for every finite value and depth |
| `ClientMetadata.SanitizeLoop` | packages/contracts/src/sanitizeClientEvent.ts:52-88 | the walk with its loops computes the sanitized value |
| `ClientMetadata.FillSanitized` | packages/contracts/src/sanitizeClientEvent.ts:68-86 | the record filled entry by entry holds what the specification keeps |
| `Transactions.HasPostgresErrorCode` | packages/db/src/types.ts:100-119 | terminates on every heap and is true if and only if some link of the cause chain carries the code |
| `Transactions.CycleAddsNothing` | packages/db/src/types.ts:100-119 | a chain that returns to a link stays among the links before the return |
| `Transactions.IsRetryableError` | packages/db/src/types.ts:125-130 | true exactly when 40001 or 40P01 is reachable |
| `Transactions.WrappedCodeReached` | packages/db/src/types.ts:86-130 | however often it is wrapped, an error with a code is found, and one with 40001 or 40P01 is retried |
| `Transactions.EndedChainRetriedIff` | packages/db/src/types.ts:86-130 | a chain that ends is retried exactly when one of its errors carries 40001 or 40P01 |
| `Transactions.WrappedOnce` | packages/db/src/types.ts:86-130 | a serialization failure under one wrapper is retried, a unique violation is not |
| `Transactions.Database.ExecuteInTransaction` | packages/db/src/types.ts:161-191 | one to four runs, all but the last aborted transiently, at most one commit and its value returned, success exactly within budget, final throw unreachable |

## Left out

- BootstrapProcess.SlotServer.MigratePostgres: a migration is atomic and summarised by the number of applied entries and whether unaccounted tables exist.
- FixtureCache.ResetOnceBeforeFirstUse: covers worker-database mode, with the mode fixed for the file; the file-schema delegation owns no slot.
- Advisory-lock key hashing and URL normalisation in `testInfraLock.ts`: the two lease keys and the lifecycle key are distinct names here.
- The `released` flag of a lease, which only makes a second release a no-op.
- Redis and queue prefixes, scope ids and queue modes beyond their validation.
- The wrapper of `sanitizeMetadata` that turns a throwing getter into an empty object.
- Backend identity capture and audit rows around the receipt transactions, and what submitting and grading compute.
- Other steps that write the attempts table: they appear only as arbitrary changes between receipt steps.
- Save-answer versioning, deadline reconciliation, restore and time-grant arithmetic, attempt and exam state machines, rich-content canonicalization, e-mail outbox, audit paging, RBAC tables, request schemas, authentication, HTTP server, web app, seeds: outside the modelled core.
