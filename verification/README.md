# Poker-quiz backend: verified model

A Dafny 4.11 model of the parts of the poker-quiz backend that hold state, loops or arithmetic, with
proofs of what those parts promise. `dafny verify dfyconfig.toml` checks all of it.

| file | what it models |
|---|---|
| `AttemptProtocol.dfy`, `AttemptTheorems.dfy` | `createAttempt` as interleaved requests over the attempt table and its unique indexes |
| `Lifecycle.dfy`, `LifecycleTheorems.dfy`, `LifecycleEffects.dfy`, `Coverage.dfy` | versions, slots, spots and attempts under approve, schedule, replace, quarantine, publish and hold; coverage |
| `Leases.dfy` | the host-worker lease protocol and the admin actions on jobs |
| `Apportionment.dfy`, `Scoring.dfy` | basis points by largest remainder; the L1 score |
| `Normalizer.dfy`, `NormalizerTheorems.dfy` | combo resolution, the validator's combo checks, lookup by card order; from envelope to score |
| `Calendar.dfy`, `Streaks.dfy`, `Progress.dfy` | calendar arithmetic, first free date, streaks, daily progress and the date range |
| `JsonText.dfy`, `CanonicalJson.dfy`, `CanonicalCopies.dfy` | `JSON.stringify` with a reader of what it writes; the three canonical printers |
| `Archive.dfy`, `ArchiveTheorems.dfy`, `ArchiveIntegrity.dfy` | the append-only archive of solver runs |
| `Backfill.dfy`, `BackfillTheorems.dfy`, `Visitor.dfy` | the stable-guest migration; guest sessions |
| `RateLimiter.dfy`, `Pagination.dfy` | the fixed-window limiter; attempt history by pages |
| `Common.dfy`, `Sets.dfy`, `Sums.dfy`, `Sorting.dfy`, `Grouping.dfy`, `TextOrder.dfy` | shared notions: results, sets, sums, sorting, grouping, string order |

What the source changes in place is a class whose methods update its fields (`Lifecycle.Store`,
`Leases.JobStore`, `Archive.Store`, `Backfill.Database`, `Visitor.Store`, `RateLimiter.Limiter`); each
method is proved equal to a function of the old state, and the theorems are about those functions over
whole runs. What each operation does to single rows, with the constants of the source, is stated by laws
that do not use the definitions they are about. The loops of the source are loops here (apportionment,
first free date, streaks, grouping, the diversity report, the validator, the archive, the recursive query
of the migration).

## Where the code does not do what is promised

Each of these is kept as the code has it, with a concrete input and the exact condition.

- Approving a version that is scheduled is allowed (`src/publication.ts:62` and `73`) and leaves its slot
  active. Publishing that day then fails, whatever operations of `src/publication.ts`, holds or submissions
  follow (`ApprovedScheduleBlocksItsDay`, `UnguardedRunBreaks`);
  a run ends without such a slot exactly when it made no such approval (`CleanExactlyAfterGuardedRuns`).
  Nor does such an approval add to coverage unless the day is over (`ApproveCoverage`,
  `ApprovalThatAddsNothing`).
- Near the end of the calendar `nextAvailablePacificDate` can answer with a text such as `+010000-01` that
  no calendar function accepts (`NextAvailablePastTheEnd`); the answer is a date exactly when some date of
  the calendar within the horizon is free (`NextAvailableIsADateExactly`).
- An admin retry of a job that a worker still holds lets a second worker in
  (`AdminRetryBreaksExclusivity`); that can happen exactly when the row shows an unexpired lease and a claim
  is left (`AdminRetryKeepsExclusiveExactly`). The retry does not give attempts back either: after three
  claims the job is queued but never claimed again (`RetryOfSpentJob`,
  `AdminRetryWorksExactlyWithClaimsLeft`), although `backend-structure.md:171` speaks of a fresh retry cycle.
- The migration's renamed keys can meet a key that a client had chosen, and then it fails (`ClashingKeys`).
  It can also fail on the older indexes over sessions, which it does not drop: when the official flag has to
  move between two attempts of a session, the order of the rows decides (`OrderDecides`).
  `MigrationSucceedsExactly` and `MigrationAlwaysSucceedsExactly` have the conditions.
- The canonical printer that rebuilds objects lists array-index keys first; its text agrees with the other
  two exactly when comparator and language order the keys of every object alike (`CopiesAgreeExactly`,
  `CopiesDiffer`).
- Two spellings of one combo can both be stored, with different strategies; lookup ignores the card order
  exactly when that is not so (`LookupIgnoresCardOrderExactly`, `LookupDependsOnCardOrder`).

## Model

| member | source | states |
|---|---|---|
| AttemptTheorems.EveryRunIsSequential | src/application/public-api.ts:239-289 | from any well-formed table, every interleaving leaves the table that handling the inserting requests one after another in commit order would leave |
| AttemptTheorems.EveryGroupIsWellFormed | src/application/public-api.ts:266-283 | in every run each (owner, version) group is empty or has exactly one official, the first, ordinals 0..n-1, and no idempotency key twice |
| AttemptTheorems.FallbackOnlyAfterOfficial | src/application/public-api.ts:277-283 | a request reaches the fallback practice insert only when an official attempt is committed |
| AttemptTheorems.LoserBecomesPractice | src/application/public-api.ts:271-283 | from every reachable state, a request under a free key that read no official attempt while another has committed one hits the unique index and, running alone from there, stores a practice attempt whose ordinal is the number of attempts of its group |
| AttemptTheorems.RecoveryAnswers | src/application/public-api.ts:272-283 | a recovery that runs alone always answers: from the stored attempt if its key was taken meanwhile, else with the practice insert |
| AttemptTheorems.FailsExactlyOnFaults | src/application/public-api.ts:271-286 | in every interleaving a call fails exactly if one of its transactions failed for another reason than a unique index: no race alone makes it fail |
| AttemptTheorems.OneAnswerPerKey | src/application/public-api.ts:240-244 | answered calls under one key have one payload and name one attempt |
| AttemptTheorems.ConflictMeansOtherPayload | src/application/public-api.ts:240-276 | a conflict alone means that a stored attempt holds the key with another payload, the one that every answered call under the key names |
| AttemptTheorems.RowsAreTheCreatedCalls | src/application/public-api.ts:264-289 | a creating call has exactly one row, any other call none |
| AttemptTheorems.StoredAttemptsStay | src/application/public-api.ts:264-289 | no later step changes or removes a stored attempt |
| AttemptTheorems.UndisturbedCallAnswers | src/application/public-api.ts:240-289 | a call without interference always answers: from the stored attempt of its key, with a conflict if the payload differs, or with the next attempt of its group, official exactly if it is the first |
| AttemptTheorems.ViolationCause | src/application/public-api.ts:271-280 | a unique violation means a taken key or a second official, nothing else |
| AttemptTheorems.SessionIndexesAreImplied | prisma/migrations/20260822000000_api_v3/migration.sql:40-47 | the session-scoped indexes never trip before the owner-scoped ones |
| Apportionment.BasisPointFrequencies | src/solver/provider.ts:59-88 | the in-place loop computes the specified strategy or the first error |
| Apportionment.ApportionIsLargestRemainder | src/solver/provider.ts:74-83 | every result is floor or floor plus one, totals 10000, and tops up the largest remainders first |
| Apportionment.LargestRemainderUnique | src/solver/provider.ts:77-83 | that description fits exactly one vector |
| Apportionment.LeftoverInRange | src/solver/provider.ts:76-81 | the leftover is non-negative and below the action count, so the index into the remainder order exists |
| Apportionment.LargestRemainderOptimal | src/solver/provider.ts:69-83 | no integer vector with the same total is nearer to the quotas in L1 |
| Apportionment.WithinOnePoint | src/solver/provider.ts:74-83 | every action ends less than a point away from its exact share of the 10000 |
| Apportionment.ZeroWeightGetsNothing | src/solver/provider.ts:74-83 | an action of weight zero gets no point |
| Apportionment.OrderPreserved | src/solver/provider.ts:77-79 | a larger weight, or an equal one earlier in order, never gets fewer points |
| Apportionment.ScaleInvariant | src/solver/provider.ts:74 | scaling the weights changes nothing |
| Apportionment.BasisPointsUnchanged | src/solver/provider.ts:74-83 | a vector of basis points totalling 10000 comes back unchanged |
| Apportionment.FrequenciesAreBasisPoints | src/solver/provider.ts:66-87 | finite non-negative weights with positive total give non-negative integers totalling 10000 along a duplicate-free order, the largest-remainder vector of their quotas |
| Apportionment.FrequenciesSucceedExactly | src/solver/provider.ts:60-67 | the call succeeds exactly when every listed action is present with a finite number, not below zero, and one is above zero |
| Apportionment.FrequencyErrors | src/solver/provider.ts:60-67 | each error exactly in its case; an invalid frequency names the first listed action without such a number |
| Scoring.SimilarityIsOverlap | src/scoring.ts:16-22 | for two strategies the stored basis points are the sum of the minima; clamp and rounding change nothing |
| Scoring.L1ScoreMeaning | src/scoring.ts:16-22 | for any two vectors of one nonzero length: similarity 100 less one for every 200 points of distance, never below zero, and the differences entry by entry; otherwise an error |
| Scoring.SimilarityExtremes | src/scoring.ts:16-22 | 10000 exactly for equal strategies, 0 exactly for disjoint supports |
| Scoring.SignedDifferencesCancel | src/scoring.ts:18 | signed differences of two equal totals sum to zero |
| Scoring.ScoreHandsMeaning | src/scoring.ts:33-49 | a scored hand gives the overlap, for each action in order its id, the submitted and the solver value and their difference, differences that cancel, and the first most frequent solver action |
| Scoring.PointsAreTenths | src/application/public-api.ts:98-100 | ten times the points lie within 5 of the similarity, ties up; a multiple of ten is exact |
| Scoring.AverageIsNearest | src/application/public-api.ts:253 | the average is that of the hands to within one half, ties up |
| Scoring.EqualHands | src/application/public-api.ts:253-256 | equal hands average to themselves, and a match on every hand earns 1000 points |
| Scoring.AttemptPoints | src/application/public-api.ts:253-256 | both roundings together move the points by at most 0.55 from a tenth of the mean |
| Scoring.AttemptScoreInRange | src/application/public-api.ts:253-256 | the overall score stays in 0..10000 and the points in 0..1000 |
| Scoring.AttemptScoreMonotone | src/application/public-api.ts:253 | no hand that improves lowers the attempt or its points |
| Scoring.MaxPairwiseL1 | src/solver/normalized.ts:96-102 | the nested loop returns the largest pairwise distance and it is attained |
| Scoring.StrategyDiversityReport | src/solver/normalized.ts:90-114 | counts, ratio in 0..1, largest distance, and "uniform", with its warning, exactly when there are several combos at distance zero |
| Scoring.StrategyDistanceBound | src/solver/normalized.ts:99 | the distance of two strategies is twice what they do not share |
| Normalizer.ValidateNormalizedEnvelope | src/solver/normalized.ts:175-189 | the loop with early throws gives the specified verdict |
| NormalizerTheorems.AcceptedEnvelopesAreSound | src/solver/normalized.ts:175-189 | an accepted envelope has a duplicate-free action order, and each selectable combo a strategy on exactly these actions: none negative, 10000 in all |
| NormalizerTheorems.AcceptedExactly | src/solver/normalized.ts:175-189 | the combo checks accept exactly envelopes whose selectable combos, and no others, have strategies of 10000 points on exactly the listed actions, each action once, with enough reach |
| NormalizerTheorems.NormalizedIsAcceptedExactly | src/solver/provider.ts:212-264 | what the normaliser returns passes every combo check exactly when the provider's order is a0..an-1; otherwise only the order check rejects it |
| NormalizerTheorems.NormalizedCombos | src/solver/provider.ts:233-264 | returned combos are distinct, have enough reach, and carry what their own entry gives: its frequencies apportioned, its reaches or else those of the hero range under either card order; every requested combo is found; the featured one is selectable |
| NormalizerTheorems.NormalizeSucceedsExactly | src/solver/provider.ts:231-263 | it succeeds exactly when a combo is featured, every entry has usable frequencies, and every combo asked for is two cards with an entry, under either order, of enough reach |
| NormalizerTheorems.FeaturedIsAlwaysSelectable | src/solver/provider.ts:261-263 | the two errors after the resolution cannot happen |
| NormalizerTheorems.LookupIgnoresCardOrderExactly | src/application/public-api.ts:39-47 | both card orders find the same strategy exactly when the two spellings are not stored with different ones |
| NormalizerTheorems.LookupDependsOnCardOrder | src/solver/provider.ts:233-264 | a provider whose two spellings of one hand pass normaliser and validator with opposite strategies |
| NormalizerTheorems.RequestedCombosAreScored | src/application/public-api.ts:246-252 | a requested combo of an accepted envelope is found, active, and scored by the overlap of two strategies |
| Normalizer.ActionIdsDiffer | src/solver/provider.ts:215 | the ids given to legal actions are distinct |
| Lifecycle.Store.ApproveSpotVersion | src/publication.ts:70-78 | the new tables, or the error and the old tables |
| Lifecycle.Store.ScheduleSpotVersion | src/publication.ts:80-90 | the new tables, or the error and the old tables |
| Lifecycle.Store.ReplacePublishedSlot | src/publication.ts:98-151 | the new tables, the new slot, the status of the old one and, as their number, exactly the attempts that changed; or the error and the old tables |
| Lifecycle.Store.QuarantinePublishedVersion | src/publication.ts:161-195 | the new tables and the numbers of the slots and of the attempts that changed, or the error and the old tables |
| Lifecycle.Store.PublishPacificDate | src/publication.ts:197-211 | the loop over the day's slots publishes all of them or rolls back |
| Lifecycle.Store.HoldVersion | src/admin.ts:44-52 | the new tables, or the error and the old tables |
| LifecycleTheorems.RunsKeepInv | src/publication.ts:70-211 | every run, whatever it approves, keeps active slots apart, each with a version of a fitting status, and every version on the calendar in a slot |
| LifecycleTheorems.CleanExactlyAfterGuardedRuns | src/publication.ts:70-211 | a run ends with every active slot matching its version's status exactly when it never approved a scheduled version |
| LifecycleTheorems.PublishSucceedsExactly | src/publication.ts:197-211 | after any run a day can be published exactly when the version of every due slot is scheduled |
| LifecycleTheorems.PublishLaws | src/publication.ts:197-211 | publishing moves exactly the due slots with their versions and keeps the invariant; it fails exactly on a stuck slot |
| LifecycleTheorems.GuardedRunsAlwaysPublish | src/publication.ts:197-211 | after a run that approved no scheduled version, publishing never fails |
| LifecycleTheorems.ReplaceLaws | src/publication.ts:98-151 | replacement works exactly for a version on the calendar and an approved other one without a slot; only such a slot can trip its insert |
| LifecycleTheorems.QuarantineLaws | src/publication.ts:161-195 | quarantine works exactly on published versions with a reason, and keeps the invariant |
| LifecycleTheorems.ScheduleKeepsInv | src/publication.ts:80-90 | scheduling keeps the invariant |
| LifecycleTheorems.StuckAfter | src/publication.ts:57-211 | a command leaves a slot stuck exactly when it was stuck or the command approves its scheduled version |
| LifecycleTheorems.StuckForGood | src/publication.ts:57-211 | whatever import, approve, schedule, replace, quarantine, publish, hold or submission follows, a stuck slot stays and its day can never be published |
| LifecycleTheorems.ApprovedScheduleBlocksItsDay | src/publication.ts:62 | approving a scheduled version works, and then the day of its slot can never be published, whatever of these commands follow |
| LifecycleTheorems.UnguardedRunBreaks | src/publication.ts:70-78 | the shortest run with a stuck slot |
| LifecycleTheorems.StatusOnlyClimbs | src/publication.ts:57-68 | from any state a step only raises statuses, with the terminal ones fixed, exactly unless it approves a scheduled version |
| LifecycleTheorems.GuardedRunsClimb | src/publication.ts:57-68 | over guarded runs no version's status falls, and rejected and superseded are final |
| LifecycleEffects.ApproveRows | src/publication.ts:57-78 | approval works exactly for a validated or scheduled version whose spot exists and that no other spot shows; that version is approved, its spot shows it, and nothing else changes |
| LifecycleEffects.ScheduleRows | src/publication.ts:80-90 | scheduling works exactly from order 1 on, for an approved version without a place, at a place that no scheduled, held or published slot takes; one slot is added, one version scheduled |
| LifecycleEffects.HoldRows | src/admin.ts:44-52 | a hold works exactly before a version is on the calendar and rejects that version only |
| LifecycleEffects.SubmitRows | src/application/public-api.ts:226-268 | a submission is stored, valid, exactly for a published version under a new id |
| LifecycleEffects.ReplaceRows | src/publication.ts:98-151 | the old version's latest slot is cancelled and the new version scheduled in its place; with invalidation exactly the attempts valid on the old version become invalid and name the new one, without it no attempt changes |
| LifecycleEffects.QuarantineRows | src/publication.ts:161-195 | every slot of the version is cancelled, its spot shows it no more, and exactly the attempts valid on it become invalid and name none |
| LifecycleEffects.PublishRows | src/publication.ts:197-211 | exactly the scheduled slots of the day are published with their versions; each spot then shows its version that is last in slot order |
| LifecycleEffects.DueInOrder | src/publication.ts:200 | the slots published are the scheduled ones of the day, in slot order |
| LifecycleEffects.AttemptsAfter | src/publication.ts:125-178 | whatever the command, a stored attempt stays; it changes only if its version is quarantined or replaced with invalidation and it was valid, and then it is invalid |
| LifecycleEffects.RevokedForGood | src/publication.ts:98-195 | after a quarantine or an invalidating replacement, whatever follows, the old version is superseded, holds no place, and no attempt on it is valid |
| LifecycleEffects.AttemptsAreOnServedVersions | src/publication.ts:57-211 | in every run each attempt is on a published or superseded version, and an invalid one on a superseded version |
| Coverage.CoverageCountsEachOnce | src/publication.ts:213-219 | after any run, coverage is the future active slots plus the approved versions less those that hold such a slot; the plain sum exactly when there are none |
| Coverage.NothingDoubled | src/publication.ts:213-219 | after a run that approved no scheduled version there are none |
| Coverage.ApproveCoverage | src/publication.ts:70-78 | approving adds one, except that a version scheduled for a later day adds nothing |
| Coverage.ApprovalThatAddsNothing | src/publication.ts:62 | a run and an approval that adds nothing |
| Coverage.ScheduleCoverage | src/publication.ts:213-219 | scheduling on a later date leaves coverage, on a date reached it takes one |
| Coverage.PublishCoverage | src/publication.ts:213-219 | a publication that succeeds leaves coverage unchanged |
| Coverage.ReplaceTakesOne | src/publication.ts:213-219 | every replacement takes exactly one |
| Coverage.QuarantineCoverage | src/publication.ts:213-219 | quarantine takes one exactly when the slot is in the future |
| Coverage.HoldCoverage | src/publication.ts:213-219 | holding takes one exactly from an approved version that holds no counted slot |
| Leases.JobStore.ClaimSolverJob | src/solver/host-worker.ts:26-67 | the claimed job was claimable; no claimable job has a higher priority, among equals none an earlier next attempt, among these none an earlier creation; without a claimable job, or when a serialization race is lost, there is none; an error exactly for a bad worker id or lease |
| Leases.JobStore.HeartbeatSolverJob | src/solver/host-worker.ts:69-72 | succeeds exactly for the running owner; the new state |
| Leases.JobStore.CompleteSolverJob | src/solver/host-worker.ts:74-79 | succeeds exactly for the running owner with a run of that job; the new state |
| Leases.JobStore.FailSolverJob | src/solver/host-worker.ts:81-88 | succeeds exactly for the running owner; retry or final failure; the new state |
| Leases.JobStore.RetryJob | src/admin.ts:60-63 | an admin retry queues any job again and touches neither lease nor attempt count |
| Leases.AdminRows | src/admin.ts:60-71 | a retry, hold, cancel or reordering works on any job and changes only the columns it is about, and no other row |
| Leases.AtMostThreeClaims | src/solver/host-worker.ts:36-52 | in any run, admin actions included, a job is claimed at most three times |
| Leases.OnlyTheLatestClaimerActs | src/solver/host-worker.ts:69-88 | heartbeat, complete and fail are accepted only from the worker of the latest claim |
| Leases.FailureIsFinalExactlyAtTheThird | src/solver/host-worker.ts:81-88 | a failure is final exactly at the third claim; before, the job is claimable again exactly from 60 seconds on after the first claim and from 300 on after the second |
| Leases.LeaseProtects | src/solver/host-worker.ts:36-72 | after a claim or heartbeat the job is claimable exactly when its lease has run out and a claim is left |
| Leases.ClaimableAfter | src/admin.ts:44-71 | a new job is claimable at once; a completed, held, cancelled or unsent one never |
| Leases.SuccessHasOwnRun | src/solver/host-worker.ts:74-79 | in every run of the system each solver run belongs to a job, and a succeeded job names one of its own |
| Leases.NoTwoHolders | src/solver/host-worker.ts:26-72 | with a non-decreasing clock and no retry of a job with an unexpired lease and a claim left, no two workers hold unexpired leases on one job |
| Leases.CarefulRunsAreExclusive | src/solver/host-worker.ts:26-88 | in such runs every unexpired lease is the one on the row |
| Leases.AdminRetryKeepsExclusiveExactly | src/admin.ts:60-63 | after a retry some continuation lets two workers hold the job exactly when its row shows an unexpired lease and a claim is left |
| Leases.AdminRetryBreaksExclusivity | src/admin.ts:60-63 | a run in which two workers hold one job |
| Leases.AdminRetryWorksExactlyWithClaimsLeft | src/admin.ts:60-63 | after a retry the job is claimable exactly when a claim was left |
| Leases.RetryOfSpentJob | src/admin.ts:60-63 | a run whose job is queued by a retry and never claimed again, whatever follows |
| Calendar.AcceptsExactlyTheDates | src/publication.ts:5-10 | the date check accepts exactly the real dates of the years 0100 to 9999 |
| Calendar.DateErrors | src/publication.ts:5-10 | each error exactly in its case: another form than four, two and two digits, or such a form that names no date |
| Calendar.DayFromYearIsEcma | src/publication.ts:8 | the day numbers used are those of ECMA-262 |
| Calendar.MonthStartIsEcma | src/publication.ts:8 | and so are the days before each month, leap days included |
| Calendar.CivilRoundTrip | src/publication.ts:8-9 | a valid date survives the way to its day number and back |
| Calendar.AddPacificDaysMoves | src/publication.ts:21-27 | adding days moves the day number by that many, or leaves the range of times |
| Calendar.LandsExactly | src/publication.ts:21-27 | the result is a date again exactly within 0100-01-01 to 9999-12-31 |
| Calendar.FarYearText | src/publication.ts:26 | what comes back for a year that four digits do not hold: a sign, six digits and the month |
| Calendar.AddingComposes | src/publication.ts:21-27 | m days and then n are m + n; a step back undoes a step forward |
| Calendar.TextOrderIsDayOrder | src/publication.ts:26 | string order of dates is day order |
| Calendar.NextAvailablePacificDate | src/publication.ts:37-45 | the loop computes the specified search |
| Calendar.NextAvailableIsTheLeastFreeDate | src/publication.ts:37-45 | the answer is free, not before the start, and every date in between is taken |
| Calendar.NextAvailableAlwaysFinds | src/publication.ts:40-44 | with at most 3660 occupied dates the search succeeds |
| Calendar.NextAvailableIsADateExactly | src/publication.ts:40-43 | the answer is a date exactly when a date of the calendar within the horizon is free |
| Calendar.NextAvailablePastTheEnd | src/publication.ts:26 | from 9999-12-31, occupied, the answer is no date |
| Streaks.CompletedDates | src/application/public-api.ts:335-341 | the ascending dates all of whose published slots were answered on that date, and no others |
| Streaks.CompletedExactly | src/application/public-api.ts:335-341 | with one official attempt a version, a date is completed exactly when it has a published slot and each of its slots an attempt of that very date |
| Streaks.BestStreak | src/application/public-api.ts:343-350 | the length of the longest run of consecutive days |
| Streaks.CurrentStreak | src/application/public-api.ts:351-354 | the whole run ending today, or yesterday if today is open; the loop terminates |
| Streaks.GetStats | src/application/public-api.ts:334-354 | all three numbers from slots and attempts; the current streak is never above the best |
| Streaks.CompletingTodayAddsOne | src/application/public-api.ts:343-354 | completing today lengthens the current streak by one and never lowers the best |
| Progress.ProgressMeaning | src/application/public-api.ts:132-151 | slots answered, points earned on them of 1000 a slot, and the least-order open slot |
| Progress.DoneMeans | src/application/public-api.ts:136-139 | a slot is answered exactly by an attempt of the owner on its version that is official and valid, and earns that attempt's points |
| Progress.SlotsForAre | src/application/public-api.ts:124-130 | the slots of a day are exactly the published ones of that date, ascending |
| Progress.CompletedMeansNothingNext | src/application/public-api.ts:142-147 | on a day with slots: completed, nothing next and all counted are equivalent |
| Progress.ScoreWithinMaximum | src/application/public-api.ts:148-149 | the score stays between 0 and 1000 a slot |
| Progress.GetDailyGameRange | src/application/public-api.ts:196-213 | one row for each day with slots, ascending, saying what the day's progress says |
| Progress.LifecycleHasOneSlot | prisma/migrations/00000000000000_init/migration.sql:293-298 | every run of the lifecycle gives the slot uniqueness that progress rests on |
| Progress.ProtocolHasOneOfficial | prisma/migrations/20260822000000_api_v3/migration.sql:42-47 | runs of the submission protocol give the one-official uniqueness |
| JsonText.WriteInjective | src/solver/normalized.ts:75 | two values print to the same text exactly when they are the same, member order included |
| JsonText.ReadBack | src/solver/normalized.ts:75 | a JSON reader takes the whole text back to the value it was printed from |
| JsonText.EscapesAre | src/solver/normalized.ts:75 | which units are escaped and how, lone surrogates included |
| JsonText.WriteUnique | src/solver/normalized.ts:75 | no value's text is a proper beginning of another's in a place where a value can end |
| CanonicalJson.CanonicalIdentifies | src/application/public-api.ts:53-57 | same canonical text exactly for values equal up to key order |
| CanonicalJson.CanonicalReadsBack | src/application/public-api.ts:53-57 | the canonical text reads back as JSON of the same content, with the keys of every object ascending |
| CanonicalJson.CanonicalWritesOrdered | src/solver/import-provenance.ts:3-12 | the direct printer writes the value with every object in key order |
| CanonicalJson.PayloadHashIdentifies | src/application/public-api.ts:59 | with a collision-free digest, same hash exactly for values equal up to key order |
| CanonicalCopies.CanonicalJsonIdentifies | src/solver/normalized.ts:68-76 | the rebuilding printer, too, identifies values exactly up to key order |
| CanonicalCopies.CopiesAgreeExactly | src/solver/normalized.ts:68-76 | the copies print the same text exactly when comparator and language order the keys alike |
| CanonicalCopies.CopiesAgreeWithoutIndexKeys | src/solver/import-provenance.ts:3-12 | without integer-like keys all copies print the same text |
| CanonicalCopies.IndexKeysExactly | src/solver/normalized.ts:70 | the keys that a rebuilt object lists first are exactly the decimal texts of the numbers below 2^32 - 1 |
| CanonicalCopies.CopiesDiffer | src/solver/normalized.ts:70 | a value with integer-like keys that they print differently |
| Archive.Store.ArchiveRun | src/solver/archive.ts:29-73 | the files and the answer after the loop, also when it throws midway |
| Archive.Store.VerifyArchive | src/solver/archive.ts:75-90 | the first failed check, or none |
| ArchiveTheorems.ArchiveOnlyAdds | src/solver/archive.ts:38-72 | a call changes no existing file, whether it returns or throws |
| ArchiveTheorems.ArchivedByName | src/solver/archive.ts:39-72 | a call files each artifact under the source hash and its own name, a metadata record that differs from an earlier one under its digest, and adds no other file |
| ArchiveTheorems.EveryReturnedArchiveVerifies | src/solver/archive.ts:29-90 | over any sequence of calls every archive returned so far verifies |
| ArchiveTheorems.ReturnedArchiveVerifies | src/solver/archive.ts:75-90 | a returned archive verifies as long as files are only added, though the hash is computed from another sort |
| ArchiveTheorems.ArchiveSucceedsExactly | src/solver/archive.ts:30-64 | a call succeeds exactly on complete, distinct artifacts that meet no different file of their name |
| ArchiveTheorems.RefusedAtOnce | src/solver/archive.ts:30-33 | a repeated name, or else the first missing source, is the error, and nothing is written then |
| ArchiveTheorems.ArchivingAgain | src/solver/archive.ts:44-69 | archiving a run again gives the same answer and touches no file |
| ArchiveTheorems.SourceHashIsOfTheSources | src/solver/archive.ts:15-19 | the source hash depends on the three sources only |
| ArchiveTheorems.SourceHashText | src/solver/archive.ts:15-19 | the text that is hashed: the three sources by file name with their digests, one a line, in whatever order they were given |
| ArchiveIntegrity.VerificationAcceptsExactly | src/solver/archive.ts:75-90 | verification accepts exactly archives whose files exist with their digests and sizes, include the three sources and, read back, hash to the recorded source hash |
| ArchiveIntegrity.TamperingIsFound | src/solver/archive.ts:75-86 | a verified archive with one file changed or gone is rejected |
| ArchiveIntegrity.ArchivingNeverConflicts | src/solver/archive.ts:38-64 | in an archive that began empty, with digests on one line and free of collisions, a call succeeds exactly on complete, distinct artifacts, whatever was archived before |
| ArchiveIntegrity.StrongDigestsExist | src/solver/archive.ts:11-19 | such digests are possible |
| RateLimiter.Limiter.Submit | src/http/public-router.ts:22-24 | the new entry and the answer |
| RateLimiter.TheFirstSixtyPass | src/http/public-router.ts:22-24 | a submission passes exactly if fewer than 60 of its key came before it in its window, which is the one still open or else the minute that starts with it |
| RateLimiter.AtMostSixtyPerWindow | src/http/public-router.ts:22-24 | with a non-decreasing clock at most 60 submissions of a key pass in a window |
| RateLimiter.AtMost120PerMinute | src/http/public-router.ts:22-24 | and at most 120 in any 60 seconds |
| RateLimiter.RejectionsNeverMoveTheReset | src/http/public-router.ts:23-24 | however many submissions of a key are rejected, and whatever other clients do, its reset time does not move |
| RateLimiter.RetryAfterIsRight | src/http/public-router.ts:24 | a rejected client alone on its key is admitted after the seconds it was told, and not a second earlier |
| Pagination.FollowingSeesEverythingOnce | src/application/public-api.ts:318-327 | following cursor texts ends and shows attempts valid at the start, newest first, none twice, and all that stay valid, whatever is inserted or invalidated on the way |
| Pagination.PageRows | src/application/public-api.ts:320-326 | a page holds the newest of the owner's valid rows that the cursor leaves, at most the limit; a next cursor comes exactly when rows are left, and names the last row of the full page |
| Pagination.LaterInsertsDoNotMatter | src/application/public-api.ts:319-323 | attempts inserted with a later time do not change what follows a cursor |
| Pagination.RestOfQuery | src/application/public-api.ts:319-326 | the query from a row's cursor is what follows that row |
| Pagination.CursorRoundTrip | src/application/public-api.ts:319 | a cursor survives encoding exactly when its id has no bar |
| Backfill.Database.SessionRoots | prisma/migrations/20260822010000_stable_guest_backfill/migration.sql:6-14 | the recursive query finds exactly the sessions whose chain has a root, with that root's identity |
| Backfill.Database.Migrate | prisma/migrations/20260822010000_stable_guest_backfill/migration.sql:6-65 | the tables after all statements, two of them row by row under the indexes in force, or the old tables |
| BackfillTheorems.SessionsFollowTheirRoot | prisma/migrations/20260822010000_stable_guest_backfill/migration.sql:6-18 | chains of any depth end on their root's identity; others stay |
| BackfillTheorems.RotationsShareIdentity | prisma/migrations/20260822010000_stable_guest_backfill/migration.sql:6-18 | a rotation and the session it replaced are on one identity |
| BackfillTheorems.MigrationKeepsAttempts | prisma/migrations/20260822010000_stable_guest_backfill/migration.sql:20-55 | a migration that succeeds keeps every attempt, changes only identity, key, official flag and ordinal, and puts it on the identity of its session |
| BackfillTheorems.MigratedAttempt | prisma/migrations/20260822010000_stable_guest_backfill/migration.sql:28-55 | the ordinal is the number of attempts of the same identity and version created before, official exactly at zero; the key stays unless one of these had it, and then the id is put behind it |
| BackfillTheorems.GroupsAreRanked | prisma/migrations/20260822010000_stable_guest_backfill/migration.sql:42-55 | each group has ordinals 0..n-1 in order of creation and exactly its earliest attempt official |
| BackfillTheorems.RenamedExactly | prisma/migrations/20260822010000_stable_guest_backfill/migration.sql:28-40 | a key is renamed exactly when an earlier attempt of the group has it |
| BackfillTheorems.MigrationSucceedsExactly | prisma/migrations/20260822010000_stable_guest_backfill/migration.sql:28-61 | in given row orders it succeeds exactly when no repeated key would be renamed to one already there and no session's official flag reaches its new row before it leaves the old one |
| BackfillTheorems.MigrationAlwaysSucceedsExactly | prisma/migrations/00000000000000_init/migration.sql:301-303 | it succeeds in every row order exactly without such a key and without a flag that moves within a session |
| BackfillTheorems.OrderDecides | prisma/migrations/20260822010000_stable_guest_backfill/migration.sql:51-55 | tables that migrate in one row order and fail in the other |
| BackfillTheorems.ClashingKeys | prisma/migrations/20260822010000_stable_guest_backfill/migration.sql:37-58 | tables with accepted keys on which the migration fails in every order |
| BackfillTheorems.ReferencesStay | prisma/migrations/20260822010000_stable_guest_backfill/migration.sql:63-65 | exactly the unused identities go, and no reference breaks |
| Visitor.Store.ResolveVisitor | src/http/visitor.ts:32-50 | the new sessions and the answer |
| Visitor.KeptWhileItGoesOn | src/http/visitor.ts:36-48 | a known session is kept, without a cookie, exactly while it is not revoked, not expired and at most 30 days old; otherwise it is revoked and a session of a year on its identity takes its place |
| Visitor.UnknownGuestsAreNew | src/http/visitor.ts:33-48 | a missing, malformed or unknown token gets a session and an identity of its own, and no other row changes |
| Visitor.TokensKeepTheirIdentity | src/http/visitor.ts:35-50 | an issued token leads to its identity in every later call, and so does the token it is exchanged for |
| Visitor.CallsKeep | src/http/visitor.ts:38-48 | no session disappears or changes identity, and rotations stay on one identity |

## Left out

- Express routing, cookies, headers, ETags, OpenAPI, configuration, metrics, audit rows and timestamps that nothing reads back.
- Prisma, PostgreSQL and pg-boss: tables are maps or sequences, a unique index guards an insert, a transaction is one step. The interleavings that the default isolation level would allow inside `src/publication.ts` are not modelled.
- SHA-256 and random ids: the digest is a parameter, free of collisions where a property needs it; ids and tokens are fresh parameters.
- The contract schemas, which are not part of this model: allocations over the legal actions and a request that names the served version are preconditions.
- `Intl` conversions: `pacificDate` is an opaque source of dates, `pacificMidnightUtc` is left out.
- IEEE rounding: weights, quotas, similarities and reaches are exact reals. `localeCompare` and the database's order of ids are total orders.
- The two statements of `failSolverJob`, and the version read of `createAttempt` against a concurrent quarantine, are one step each.
- `getDailyGame`'s fallback to an earlier day, `getSpot`, `readPublicSpot` and `summarizeBreakdowns`: easy members.
- `scripts/retire-synthetic-spot.mjs`, with which an operator can cancel the active slots of a spot outside the lifecycle and so free a blocked day.
- `migrateLegacySpotVersions`, and `persistValidatedDraft`, which overwrites a job's attempt count outside the claim protocol.
- `assertPublishableStrategyQuality`, presentation and position checks, candidate ranking by entropy, log and template checks, range strings of import provenance.
- Account sign-in in `resolveVisitor`; concurrent calls of the archive, and reads that fail for another reason than a missing file; path escapes, since keys are made of a digest and fixed names.
- `undefined` inside a value to be printed, which is not JSON.
- Backfill.Database.Migrate: the account indexes, since an attempt belongs to a session or to an account and the statements rewrite no indexed column of the latter; the new indexes are built after all updates.
- Pagination.FollowingSeesEverythingOnce: attempts inserted meanwhile have a later time; an invalidated attempt does not become valid again.
- Normalizer.ValidateNormalizedEnvelope: of the schema only the bounds on frequencies.
- Leases.AdminRetryKeepsExclusiveExactly: continuations run with a non-decreasing clock and without a further retry of this kind.
