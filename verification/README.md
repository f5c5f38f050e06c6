# Verified model of the HR backend's core logic

The backend computes attendance days from punches and leave, caches the result, delivers durable
events from an outbox, runs one-time agent confirmations, validates and compiles form definitions,
reconciles leave ledgers with an external HR system, and keeps a model gateway in step with its own
registry. This project models those parts and proves what they promise, for all inputs and over all
runs. `dafny verify dfyconfig.toml` checks everything.

**Attendance.** `Intervals` gives every list of half-open intervals its meaning, a finite set of
nanoseconds; a set has exactly one sorted, strictly separated list (`Runs`), so the union,
intersection, difference and capping loops are proved equal to set operations. `WorkSessions` proves
the punch-pairing loop equal to a declarative splitting of the day into runs. `LeaveCredit` treats
leave facts as a set, inside the schedule, off the breaks, never counted twice. `DayProjection`
assembles a day and its status. `ProjectionCache` stores it under a fingerprint and proves when a
stored row equals a fresh computation. `ClockPunches` accepts punches and applies corrections.

**Delivery.** `OutboxProtocol` is the lease protocol as a transition system for any number of workers,
with a clock per step and no assumption that clocks agree. `OutboxDispatcher` is the table and one
worker's pass, proved to be a run of that system whatever the other workers do in between.
`Confirmations` is the claim, act, settle protocol with lost and late writes.

**Documents and ledgers.** `FormDefinitions` proves the validator's report exact and `FormCompiler`
the round trip of the compiled layout. `LeaveLedger` and `LeaveMatching` are the append-only ledger,
the overlay and the one-to-one matching over every run. `ModelSync` is the gateway synchronisation and
`DailyAdapters` the two-way conversion of day sheets.

Beside the machinery, the modules `DayStatus`, `PunchLaws`, `OutboxLaws`, `LeaveBalances` and `FormRules`
say what the results mean without using the functions that compute them: which day is shown as what and
why, which punch is turned down, which event a claim takes and when a failed one is tried again, which
balance a match reaches, what every error code says about the schema.

Several promises do not hold on all inputs. Each is kept as the code has it, with a concrete
counterexample where the condition alone does not show one, and the exact condition:

- A cap counts only the full minutes of an interval it keeps, so a leave around a break that grants two
  minutes is credited three (`LeaveOvershoots`). What it lets through is the `Spill` of its input; it
  keeps no more than its minutes if and only if there is no more or nothing spills (`CapHolds`), which
  for a leave is read off its two times, the schedule and the break (`LeaveCapExactly`).
- The cache's open-clock test overlooks a clock-in and a clock-out at the same instant
  (`SimultaneousPunchesGoStale`); with distinct times it is exact (`OpenClockTestIsExact`), and a day is
  independent of the clock if and only if no session waits (`ClockFreeExactly`).
- While a session waits, a row computed at 09:00:29 and served at 09:00:31 is a minute off
  (`OpenHitIsOff`), never more (`OpenHitIsNear`). All hits of a clock minute are exact if and only if
  the minute is steady: what it adds to the worked time crosses no half minute (`OpenHitsExactly`). With
  punches and leave on whole minutes these are the minutes in a break, in leave or before the session
  (`OpenHitsOnMinutes`).
- Adding leave can cost the day's total a minute (`RoundingCanCostAMinute`), if and only if what rounding
  leaves over grows by more than the time gained (`ExtraLeaveDropsExactly`).
- A not-configured outcome gives its attempt back if and only if the claim still holds when it is settled
  (`NotConfiguredIsFree`); otherwise the row keeps both attempts (`ReclaimKeepsTheAttempt`).
- An event handled as deleted while its row exists removes a live model (`LateDeleteRemovesLiveModel`); an
  identifier disagrees with its row if and only if its last effective event is such a delete
  (`DisagreesExactly`).
- An event claimed on its last allowed attempt whose worker stops is never picked up again, not even by
  an operator (`LastAttemptIsStuck`); a dropped event is recoverable if and only if attempts are left
  (`RecoverableExactly`).
- A field whose identifier has surrounding whitespace is accepted and then vanishes from the compiled
  form (`UntrimmedFieldVanishes`); the round trip holds if and only if there is none
  (`RoundTripExactly`).
- A leave record that returns to a Nexus record it left before posts nothing (`ReturnLosesTheMinutes`);
  its entries telescope if and only if it is not back at one (`TelescopesExactly`).
- A widget with surrounding whitespace is accepted and compiles to a type the runtime does not know
  (`PaddedWidgetIsUnknown`), if and only if it has any (`KnownKindExactly`). A negative upper bound on
  lengths is accepted too, though no text meets it (`TextLengthsExactly`).
- A break in the small hours of an overnight shift takes nothing off (`NightBreakIsLost`); break time is
  exactly what lies on the work date itself (`BreakExactly`).
- A disabled model is removed from the gateway if and only if its key can be read, which removing it does
  not need (`RoutesExactly`).
- A sweep deletes the models of a tenant whose listing failed; the registry ends up complete if and only
  if such tenants have no enabled model (`WholeRegistryExactly`).

The store code is modelled from the in-memory store and the SQL statements of the repository; for the
outbox the two finalize statements differ in what they write and are proved to agree on every
reachable state (`FinalizeStatementsAgree`).

## Model

| member | source | states |
|---|---|---|
| Intervals.MergeIntervals | internal/service/attendance_day_projection.go:778-797 | for any intervals, unsorted, overlapping, empty or inverted, the result is the unique canonical list of their union |
| Intervals.IntersectIntervals | internal/service/attendance_day_projection.go:800-818 | the canonical list of the intersection of the two point sets |
| Intervals.SubtractIntervals | internal/service/attendance_day_projection.go:821-840 | the canonical list of the difference of the two point sets |
| Intervals.CanonicalUnique | internal/service/attendance_day_projection.go:778-797 | two sorted, strictly separated lists covering the same instants are equal |
| Intervals.MergeIsOrderFree | internal/service/attendance_day_projection.go:778-797 | equal point sets merge to equal lists, so merging is idempotent and ignores order and repetition |
| Intervals.MeasureCountsPoints | internal/service/attendance_day_projection.go:843-849 | the summed lengths of a canonical list count its instants |
| Intervals.IntervalMinutes | internal/service/attendance_day_projection.go:843-849 | the rounded number of instants of the union, overlaps counted once |
| Intervals.CapIntervals | internal/service/attendance_day_projection.go:710-730 | the cap of the merged input, interval by interval |
| Intervals.CappedIsTimePrefix | internal/service/attendance_day_projection.go:710-730 | what a cap keeps is everything of the input before some instant |
| Intervals.CappedExactly | internal/service/attendance_day_projection.go:710-730 | the kept time is the smaller of everything and the cap's minutes plus the seconds that spill, which are computed from the input |
| Intervals.CapHolds | internal/service/attendance_day_projection.go:719-727 | no more than the cap's minutes is kept if and only if the input has no more or spills nothing |
| Intervals.CappedMeasureAligned | internal/service/attendance_day_projection.go:710-730 | on whole-minute input the kept measure is the smaller of the cap and everything |
| Intervals.CapOvershoots | internal/service/attendance_day_projection.go:719-727 | two stretches of ninety seconds under a two-minute cap keep three minutes |
| Intervals.RoundedSums | internal/service/attendance_day_projection.go:843-849 | two parts rounded separately exceed two at least as large parts by at most one minute, and by none on whole minutes |
| WorkSessions.AttendanceWorkIntervals | internal/service/attendance_day_projection.go:538-579 | the loop with its pending session and close candidate yields exactly the sessions' worked time |
| WorkSessions.PairingDeterminesSessions | internal/service/attendance_day_projection.go:538-579 | any splitting of time-ordered punches into runs, each a clock-in followed up to its last later clock-out, gives the loop's sessions |
| WorkSessions.PairingExists | internal/service/attendance_day_projection.go:538-579 | every time-ordered punch list has such a splitting |
| WorkSessions.LeadingClockOutsAddNothing | internal/service/attendance_day_projection.go:570-575 | clock-outs before the first clock-in change nothing, whatever follows |
| WorkSessions.RepeatedClockInAddsNothing | internal/service/attendance_day_projection.go:557-569 | a clock-in while a session waits changes nothing, whatever follows |
| WorkSessions.SessionsInSequence | internal/service/attendance_day_projection.go:538-579 | sessions come in time order without overlap |
| WorkSessions.LaterClockOut | internal/service/attendance_day_projection.go:545-579 | appending a later clock-out loses no worked time unless, exactly, it closes a running session before the reading clock |
| WorkSessions.DependsOnClock | internal/service/attendance_day_projection.go:545-553 | worked time depends on the clock if and only if a session waits for its clock-out |
| WorkSessions.LastPunchDecides | internal/service/attendance_day_projection.go:554-576 | when exactly the last punch leaves a session waiting |
| WorkSessions.WaitingGrows | internal/service/attendance_day_projection.go:545-553 | letting the clock run on adds exactly the time between the readings |
| LeaveCredit.AttendanceEffectiveLeaveIntervals | internal/service/attendance_day_projection.go:621-641 | approved and pending credit are the canonical lists of the union of the facts' clipped and capped time |
| LeaveCredit.CreditWithinSchedule | internal/service/attendance_day_projection.go:621-641 | a fact's credit is a time prefix of its clipped time, inside the schedule and off the breaks |
| LeaveCredit.FactsActAsASet | internal/service/attendance_day_projection.go:621-641 | order and repetition of facts do not matter and more facts never credit less |
| LeaveCredit.NetMinutesRespected | internal/service/attendance_day_projection.go:628-632 | on whole minutes a fact with positive net minutes credits the smaller of them and its clipped time |
| LeaveCredit.CapHoldsExactly | internal/service/attendance_day_projection.go:628-632 | in general a capped fact stays within its net minutes if and only if its clipped time does or it is cut and spills nothing; its reported minutes exceed them if and only if the clipped ones do and half a minute or more spills |
| LeaveCredit.CreditIsConserved | internal/service/attendance_day_projection.go:473-478 | net worked time, approved leave and breaks are disjoint and the two credits measure their union |
| LeaveCredit.MoreLeaveCreditsMore | internal/service/attendance_day_projection.go:473-478 | more approved leave never lowers credited time, in rounded minutes by at most one, and not at all on whole minutes |
| LeaveCredit.RoundedCreditDrops | internal/service/attendance_day_projection.go:473-478 | an extra credit lowers worked plus approved minutes if and only if the two rests of rounding grow by more than the instants gained |
| LeaveCredit.AttendanceEffectiveLeavesForProjection | internal/service/attendance_day_projection.go:208-221 | keeps exactly the employee's facts that reach into the schedule's span |
| LeaveCredit.IrrelevantFactsCreditNothing | internal/service/attendance_day_projection.go:208-221 | dropping the employee's facts that miss the schedule changes no credit |
| DayProjection.AttendanceScheduleIntervals | internal/service/attendance_day_projection.go:582-609 | schedule and breaks of a date as point sets, overnight shifts included |
| DayProjection.ScheduleCellwise | internal/service/attendance_day_projection.go:582-609 | schedule and breaks consist of whole clock minutes |
| DayProjection.RequiredMinutes | internal/service/attendance_policy_service.go:404-420 | always positive, whatever the settings |
| DayProjection.RequiredExactly | internal/service/attendance_policy_service.go:404-420 | for a schedule within a day, the required minutes are the schedule less the break if and only if the break misses it, or lies inside it without filling it |
| DayProjection.RequiredOtherwise | internal/service/attendance_policy_service.go:404-420 | eight hours without a schedule within one day or with a break that is all of it, the whole schedule when the break sticks out |
| DayProjection.LeaveCapExactly | internal/service/attendance_day_projection.go:628-632 | when exactly a leave stays within its net minutes, as time and as reported minutes, read off its at most two stretches before and after the break |
| DayProjection.LeaveOvershoots | internal/service/attendance_day_projection.go:719-727 | a day whose only leave grants two minutes around the break is credited three |
| DayProjection.AttendanceDayAnomalies | internal/service/attendance_day_projection.go:733-762 | the reasons in order of first mention, each once |
| DayProjection.ProjectAttendanceDay | internal/service/attendance_day_projection.go:414-504 | the field-by-field computation equals the projection built from sessions, schedule and credit |
| DayProjection.CompleteExactly | internal/service/attendance_day_projection.go:481-502 | the status is complete exactly when credit reaches the requirement and the boundary punches are in order, or there is no clock-in and nothing pending |
| DayProjection.CompleteDayHasItsHours | internal/service/attendance_day_projection.go:467-504 | the same for every projected day: a complete day has worked plus approved minutes at least the required ones |
| DayProjection.PunchesIgnoreListing | internal/service/attendance_day_projection.go:415-430 | records with distinct identifiers in any order give the same ordered punches |
| DayProjection.ProjectionIgnoresListing | internal/service/attendance_day_projection.go:414-504 | permuting records and leaves, or repeating a leave, does not change the projection |
| DayProjection.ExtraLeaveKeepsCredit | internal/service/attendance_day_projection.go:473-478 | an extra fact never lowers a day's total by more than a minute, and not at all on whole minutes |
| DayProjection.ExtraLeaveDropsExactly | internal/service/attendance_day_projection.go:473-478 | adding a fact lowers the projected total if and only if, on the day as it was, the fact's credit makes the rests of rounding grow by more than it gains |
| DayProjection.RoundingCanCostAMinute | internal/service/attendance_day_projection.go:473-478 | a day of ninety seconds counts two minutes, and one with leave over its first twenty seconds |
| DayStatus.BoundariesExactly | internal/service/attendance_day_projection.go:436-457 | a projected day has a clock-in or clock-out exactly if its records do, the earliest and the latest one that counts, ties by creation and identifier |
| DayStatus.StatusExactly | internal/service/attendance_day_projection.go:481-502 | each of the five statuses if and only if a condition on the boundary punches, the minute counts, the flexible window and the clock: working exactly with a clock-in, no clock-out, and before midnight or the minute after an overnight end |
| DayStatus.ReasonsExactly | internal/service/attendance_day_projection.go:733-762 | each reason if and only if its condition, each once and in order: a missing clock-out exactly once that deadline is reached, short hours, punches off the fixed or flexible window |
| DayStatus.ClockRunsOn | internal/service/attendance_day_projection.go:491-495 | as the clock runs on a status changes only from working to abnormal at the deadline, or to complete when a day with its clock-out gets its hours |
| DayStatus.RunningThenMissing | internal/service/attendance_day_projection.go:491-495 | a clock-in alone is working on its date, abnormal with a missing clock-out two days later |
| DayStatus.DeadlineExactly | internal/service/attendance_day_projection.go:519-535 | the deadline is midnight, or one minute after an overnight schedule ends, from the settings |
| DayStatus.ScheduleExactly | internal/service/attendance_day_projection.go:582-593 | an instant is scheduled if and only if its date and time of day say so, overnight shifts included |
| DayStatus.BreakExactly | internal/service/attendance_day_projection.go:595-608 | an instant is break time if and only if it is scheduled, on the work date itself and between the two break times |
| DayStatus.NightBreakIsLost | internal/service/attendance_day_projection.go:595-608 | a break in the small hours of an overnight shift takes nothing off |
| DayStatus.ActionsExactly | internal/service/attendance_day_projection.go:432-459 | the last punch in order of time, creation and identifier, a clock-in offered exactly without punches, a clock-out exactly after a clock-in |
| DayStatus.NamesExactly | internal/service/attendance_day_projection.go:432-465 | the date of a projection and the identifiers of the records it names |
| DayStatus.PunchesCounted | internal/service/attendance_day_projection.go:432-436 | the reported number of punches is that of the records that count |
| DayStatus.MinutesExactly | internal/service/attendance_day_projection.go:473-478 | the three minute counts are, to the nearest minute, session time off break and approved leave, approved leave, pending leave |
| DayStatus.ReportedSchedule | internal/service/attendance_day_projection.go:467-472 | the two reported ends enclose exactly the scheduled instants |
| DayStatus.CreditExactly | internal/service/attendance_day_projection.go:621-641 | an instant is approved or pending leave if and only if some fact of that status credits it |
| ProjectionCache.FingerprintFixesPunches | internal/service/attendance_day_projection.go:244-272 | equal fingerprints mean the same ordered punches in every column the computation reads |
| ProjectionCache.FingerprintFixesLeave | internal/service/attendance_day_projection.go:262-264 | equal fingerprints mean the same credited leave |
| ProjectionCache.MaterializeRecords | internal/service/attendance_day_projection.go:223-242 | attaching records by identifier and recomputing the two action flags |
| ProjectionCache.MaterializeUndoesPersist | internal/service/attendance_day_projection.go:223-242 | storing a projection and attaching the records again gives it back, action flags included |
| ProjectionCache.HitEqualsFresh | internal/service/attendance_day_projection.go:143-179 | when no session waits, a stored row with the matching fingerprint equals a fresh computation in every field, whenever either was made |
| ProjectionCache.OpenClockTestIsExact | internal/service/attendance_day_projection.go:274-291 | with distinct times the test says open exactly when a session waits |
| ProjectionCache.ClockFreeExactly | internal/service/attendance_day_projection.go:414-535 | the projection is the same at every clock reading if and only if no session waits |
| ProjectionCache.SimultaneousPunchesGoStale | internal/service/attendance_day_projection.go:274-291 | a clock-in and a clock-out at one instant: equal fingerprints, different projections |
| ProjectionCache.UncachedClock | internal/service/attendance_day_projection.go:266-268 | whenever a session waits on a day the test calls closed, some stored row is served stale |
| ProjectionCache.DeadlineByMinute | internal/service/attendance_day_projection.go:519-535 | whether the deadline has passed depends only on the clock's minute |
| ProjectionCache.WorkedWithinAMinute | internal/service/attendance_day_projection.go:266-268 | within one clock minute the worked minutes change by at most one |
| ProjectionCache.OpenHitIsNear | internal/service/attendance_day_projection.go:143-179 | a hit while a session waits agrees except for worked minutes, off by at most one, and what is judged from them |
| ProjectionCache.SteadyExactly | internal/service/attendance_day_projection.go:266-268 | all readings within a clock minute count the same worked minutes if and only if what the minute adds does not cross a half minute |
| ProjectionCache.SteadyOnMinutes | internal/service/attendance_day_projection.go:266-268 | with breaks and leave on whole minutes: if and only if the minute is off work, or worked time stood at half a minute past a whole one |
| ProjectionCache.OpenHitExactly | internal/service/attendance_day_projection.go:143-179 | a hit with an open-clock fingerprint equals a fresh computation in every field if and only if both clock readings count the same worked minutes |
| ProjectionCache.OpenHitsExactly | internal/service/attendance_day_projection.go:143-179 | every matching row, from whatever records, leaves and reading, is served exactly throughout a clock minute if and only if the minute is steady |
| ProjectionCache.OpenHitsOnMinutes | internal/service/attendance_day_projection.go:143-179 | with punches and leave on whole minutes: if and only if the minute lies in a break, in approved leave or before the waiting session |
| ProjectionCache.OpenHitIsOff | internal/service/attendance_day_projection.go:266-268 | a single clock-in at nine: equal fingerprints at 09:00:29 and 09:00:31, zero minutes served, one due |
| ProjectionCache.ProjectionStore.ProjectAndPersistAttendanceDay | internal/service/attendance_day_projection.go:143-179 | serves the stored row on a match and otherwise computes and stores, and every row in the store is one some computation made |
| ProjectionCache.DayLeavesSuffice | internal/service/attendance_day_projection.go:148 | narrowing the employee's facts first changes no projection |
| ClockPunches.ClockService.CreateAttendanceClockRecord | internal/service/attendance_clock_service.go:126-225 | replay, refusal, rejection or acceptance of a punch, and the stored records afterwards |
| ClockPunches.ClockService.ApplyApprovedAttendanceCorrection | internal/service/attendance_clock_service.go:528-587 | the effect of a correction, with nothing changed when it fails |
| ClockPunches.ClockService.CreateAttendanceCorrection | internal/service/workflow_correction_adapter.go:44-94 | stores a pending request, with the target's date, direction and time where it takes them over, and refuses a missing, foreign or voided target |
| ClockPunches.ClockService.ReviewAttendanceCorrection | internal/service/attendance_clock_service.go:756-856 | the outcome of every case: only a pending request changes, an approval carries out the stored correction, and one whose effect fails leaves everything as it was |
| ClockPunches.ApprovalKeeps | internal/service/attendance_clock_service.go:528-587 | every approved request stays in effect, its target voided and its record stored, and no two of them voided the same record |
| ClockPunches.PunchKeeps | internal/service/attendance_clock_service.go:153-176 | a punch keeps at most one effective clock-in per employee and date, unique client events, and every older record |
| ClockPunches.CorrectionKeeps | internal/service/attendance_clock_service.go:528-587 | a correction keeps the same, voids its target and leaves every other record as it was, adds at most the requested one, and changes nothing on failure |
| ClockPunches.EveryRunKeeps | internal/service/attendance_clock_service.go:153-176 | over every run of punches and corrections these hold in every state, and no record is removed, altered or un-voided |
| ClockPunches.AdvertisedActionsAreAccepted | internal/service/attendance_day_projection.go:458-459 | an advertised clock-in is never rejected as duplicate nor an advertised clock-out as out of sequence |
| PunchLaws.WindowExactly | internal/service/attendance_clock_service.go:607-633 | which settings a punch is held against, and when it is off its window |
| PunchLaws.RejectedExactly | internal/service/attendance_clock_service.go:590-604 | each of the four reasons if and only if its condition, the earlier ones first |
| PunchLaws.ReplaysExactly | internal/service/attendance_clock_service.go:126-138 | a client event stored before is answered with its record, refused exactly if that is another employee's, and never stored again |
| PunchLaws.PunchesExactly | internal/service/attendance_clock_service.go:139-205 | what is stored for a new punch, column by column, and when it is refused; a window finding leaves it accepted |
| PunchLaws.CorrectsExactly | internal/service/attendance_clock_service.go:528-562 | each outcome of a correction if and only if its condition on the target and the day's other clock-ins |
| PunchLaws.CorrectedExactly | internal/service/attendance_clock_service.go:539-587 | the records after an applied correction |
| PunchLaws.ApprovesExactly | internal/service/attendance_clock_service.go:788-820 | an approval carries out what was requested, the voided record getting the reviewer's reason or else the requester's |
| OutboxProtocol.OutboxRetryBackoff | internal/jobs/outbox_dispatcher.go:395-404 | the doubling loop returns the smaller of 30 * 2^(n-1) and 600 seconds |
| OutboxProtocol.BackoffBounds | internal/jobs/outbox_dispatcher.go:395-404 | the delay is monotone in the attempts, within 30 and 600 seconds, and constant from the sixth attempt |
| OutboxProtocol.StepKeeps | internal/jobs/outbox_dispatcher.go:204-308 | every step keeps the invariant: leased rows are the copies their holders carry, counters stay within the limit, statuses are earned |
| OutboxProtocol.SettledStatusesAreEarned | internal/jobs/outbox_dispatcher.go:248-297 | in every reachable state a succeeded row had its handler succeed under the claim that wrote it, a parked one a permanent refusal, a dead-lettered one a failure at its limit, which is positive |
| OutboxProtocol.FinalizeStatementsAgree | internal/repository/memory/store.go:5444-5459 | replacing the row by the worker's event and updating only some columns give the same row |
| OutboxProtocol.LostClaimStaysLost | internal/repository/outbox_store.go:19-20 | a claim that is not current never becomes current again in any run, and settling under it changes nothing |
| OutboxProtocol.SettleOnlyOnce | internal/jobs/outbox_dispatcher.go:299-308 | a claim settles its event at most once |
| OutboxProtocol.ReclaimFencesTheFormerHolder | internal/jobs/outbox_dispatcher.go:28-30 | after a reclaim nothing the former holder writes takes effect, ever |
| OutboxProtocol.SuccessIsFinal | internal/jobs/outbox_dispatcher.go:291-296 | a succeeded row stays exactly so until it is deleted, and deleted events stay deleted |
| OutboxProtocol.OnlyOperatorsRevive | internal/repository/outbox_store.go:21-22 | without an operator retry a parked or dead-lettered row never changes |
| OutboxProtocol.FailuresWithinLimit | internal/jobs/outbox_dispatcher.go:271-289 | between operator retries an event with limit N records at most N failures, and the stored counter is their number |
| OutboxProtocol.OneAttempt | internal/jobs/outbox_dispatcher.go:248-297 | an undisturbed claim, answer and settlement leaves exactly the settled form of the claimed row |
| OutboxProtocol.NotConfiguredIsFree | internal/jobs/outbox_dispatcher.go:252-264 | whatever happened since the claim, settling a not-configured outcome restores the counters from before it if and only if the claim is still current, and otherwise changes nothing |
| OutboxProtocol.ReclaimKeepsTheAttempt | internal/jobs/outbox_dispatcher.go:299-308 | once the event is claimed again its row carries both attempts, and the former holder never gives one back |
| OutboxProtocol.AttemptsWithinLimit | internal/jobs/outbox_dispatcher.go:252-289 | between operator retries the stored attempts are those before plus claims less refunds, never beyond the limit, and a dead-lettered event has spent exactly its limit |
| OutboxProtocol.LeasedUntilReclaimed | internal/jobs/outbox_dispatcher.go:239-241 | a lease whose holder stopped stays exactly as handed out until somebody else claims the event |
| OutboxProtocol.ExpiredLeaseClaimable | internal/repository/memory/store.go:5402-5409 | an expired lease is claimable if and only if attempts are left |
| OutboxProtocol.LastAttemptIsStuck | internal/repository/memory/store.go:5402-5404 | an event on its last attempt whose holder never settles never changes in any run |
| OutboxProtocol.RecoverableExactly | internal/repository/outbox_store.go:17-18 | some continuation without its holder changes a leased event if and only if it has attempts left |
| OutboxProtocol.LastAttemptCanBeLost | internal/repository/memory/store.go:5402-5404 | a concrete run into that state |
| OutboxDispatcher.ChooseDue | internal/repository/memory/store.go:5398-5422 | takes at most the limit, in order of next attempt, creation and identifier, passing over no due unlocked event for a later one |
| OutboxDispatcher.Outbox.ClaimOutboxEvents | internal/repository/memory/store.go:5387-5441 | the chosen rows become leases under fresh tokens with one more attempt |
| OutboxDispatcher.Outbox.FinalizeOutboxEvent | internal/repository/memory/store.go:5444-5459 | writes if and only if the row is processing under the event's own token |
| OutboxDispatcher.Outbox.RetryOutboxEvent | internal/repository/memory/store.go:5462-5491 | resets a failed, parked or dead-lettered event and no other |
| OutboxDispatcher.Outbox.DeleteSucceededOutboxEventsBefore | internal/repository/memory/store.go:5494-5509 | removes exactly the old succeeded events and counts them |
| OutboxDispatcher.Outbox.AppendOutboxEvent | internal/repository/memory/store.go:5272-5286 | adds the event unless its type and idempotency key are already there |
| OutboxDispatcher.Outbox.ProcessEvent | internal/jobs/outbox_dispatcher.go:248-297 | the field updates for each outcome followed by the finalize are one settle step, and a lost claim is reported exactly |
| OutboxDispatcher.Outbox.ProcessTenant | internal/jobs/outbox_dispatcher.go:204-245 | under any interference of others the pass is this very run of the protocol; a batch cut short leaves later events unhandled and leased as handed out unless reclaimed |
| OutboxLaws.ClaimsExactly | internal/repository/memory/store.go:5398-5410 | a claim takes effect if and only if every event it names is new or failed and due, or leased and expired, with attempts left |
| OutboxLaws.ClaimedRows | internal/repository/memory/store.go:5424-5438 | the columns a claim sets on each event, and that it leaves all others alone |
| OutboxLaws.WaitingIsTakenExactly | internal/repository/memory/store.go:5402-5408 | a new or failed event is leased if and only if its time has come and attempts are left; otherwise nothing changes |
| OutboxLaws.SettledIsNeverTaken | internal/repository/memory/store.go:5405-5409 | a claim naming a succeeded, parked or dead-lettered event changes nothing |
| OutboxLaws.SettlesExactly | internal/jobs/outbox_dispatcher.go:248-297 | each final status if and only if its outcome, and every counter and stamp of the settled row |
| OutboxLaws.RetriedAfterBackoff | internal/jobs/outbox_dispatcher.go:271-289 | whatever happened since the claim, after a transient failure settled under it a claim takes the event again if and only if 30, 60, 120, 240, 480 or 600 seconds have passed, or it is dead-lettered at its limit |
| OutboxLaws.RetriesExactly | internal/repository/memory/store.go:5462-5491 | an operator's retry starts a failed, parked or dead-lettered event over and changes no other |
| OutboxLaws.RetriedIsTaken | internal/repository/memory/store.go:5462-5491 | such an event can be claimed again at once |
| OutboxLaws.DeletesExactly | internal/repository/memory/store.go:5494-5509 | a deletion removes an event if and only if it succeeded and is older than the bound |
| OutboxLaws.AppendsExactly | internal/repository/memory/store.go:5272-5286 | an appended event is stored with its columns and five attempts by default, unless its type and key are taken |
| OutboxLaws.TakesTheSoonest | internal/repository/memory/store.go:5411-5422 | a claim takes the soonest of the ready events, as many as the limit allows |
| OutboxLaws.ProcessedExactly | internal/jobs/outbox_dispatcher.go:222-244 | the reported number is that of the settled events with a handler |
| OutboxLaws.QuietPass | internal/jobs/outbox_dispatcher.go:204-245 | in a pass nobody interferes with every event taken ends as its handler answered |
| Confirmations.SucceedsAtMostOnce | internal/service/agent_confirmation_service.go:61-106 | over every run of any callers with lost and late writes the action of one confirmation succeeds at most once |
| Confirmations.OneCallerAtATime | internal/service/agent_confirmation_service.go:408-436 | two callers are never between claim and final write of one confirmation |
| Confirmations.StepsObeyTransitions | internal/domain/agent_v2.go:946-958 | every step obeys the transition relation, and a return to pending is the write of a retryable failure before the expiry |
| Confirmations.TerminalIsFinal | internal/domain/agent_v2.go:940-943 | a terminal record never changes in any column, though the store would accept a second write of its status |
| Confirmations.SuccessIsNeverReclaimed | internal/service/agent_confirmation_service.go:487-514 | after a success the record is executing or completed for good and every claim is refused, whether or not the completion was written |
| Confirmations.HeldUntilWritten | internal/service/agent_confirmation_service.go:134-143 | while its caller's write has not landed a record stays as claimed |
| Confirmations.ConfirmationService.ClaimAgentConfirmation | internal/repository/memory/store.go:3925-3946 | only a pending record of the owner on the current segment, which expires instead once past its time |
| Confirmations.ConfirmationService.UpdateAgentConfirmation | internal/repository/memory/store.go:3949-3963 | copies the settlement's columns if and only if the transition is allowed |
| Confirmations.ConfirmationService.SendSettlement | internal/service/agent_confirmation_service.go:110-144 | expired before cancelled before retryable before failed, completed on success |
| Confirmations.ConfirmationService.ExecuteAgentConfirmation | internal/service/agent_confirmation_service.go:61-106 | one call under any interference is this very run; it reports success only with the completion stored and never finds the record changed under it |
| Confirmations.TransitionsExactly | internal/domain/agent_v2.go:940-958 | the transition relation state by state, and that the terminal ones have no way out |
| Confirmations.ClaimsExactly | internal/repository/memory/store.go:3925-3946 | who gets to run an action and when the claim expires the record instead |
| Confirmations.FailureEndsExactly | internal/service/agent_confirmation_service.go:110-161 | a failed attempt ends expired, cancelled, pending or failed, each if and only if its condition on the expiry and the error; only pending is left unconsumed |
| Confirmations.SuccessEndsExactly | internal/service/agent_confirmation_service.go:487-514 | a successful attempt ends completed with its result, past the expiry too |
| Confirmations.SuccessesExactly | internal/service/agent_confirmation_service.go:66-88 | an action counts as run exactly when its holder ran a decodable one successfully |
| FormDefinitions.ValidateFormDefinitionSchemaV2 | internal/domain/form_definition.go:220-319 | the reported errors are exactly the schema's violations and valid means there are none |
| FormDefinitions.ValidateBinding | internal/domain/form_definition.go:322-360 | the reported binding faults are exactly the binding's |
| FormDefinitions.ValidateLayout | internal/domain/form_definition.go:270-290 | the reported layout errors are exactly the empty rows, unknown, repeated and missing fields |
| FormDefinitions.LayoutExactly | internal/domain/form_definition.go:270-290 | given distinct identifiers the layout checks pass if and only if no row is empty and the flattened layout is a permutation of the fields |
| FormDefinitions.FieldsExactly | internal/domain/form_definition.go:232-269 | the field checks pass if and only if every field is sound and trimmed identifiers are distinct |
| FormDefinitions.StagesExactly | internal/domain/form_definition.go:291-317 | the stage checks pass if and only if stages are sound and distinct |
| FormDefinitions.AcceptedExactly | internal/domain/form_definition.go:220-319 | a schema has no violation if and only if it is well formed |
| FormDefinitions.BoundsExactly | internal/domain/form_definition.go:257-262 | bounds on lengths or values are accepted if and only if some length or number meets them |
| FormRules.BlankExactly | internal/domain/form_definition.go:235 | the white space that trimming removes, character by character |
| FormRules.TrimExactly | internal/domain/form_definition.go:235 | trimming leaves the text between its surrounding white space |
| FormRules.CoreIsTrimmed | internal/domain/form_definition.go:235 | and no other text is that |
| FormRules.NamesExactly | internal/domain/form_definition.go:209 | an identifier is a lower-case letter followed by up to sixty-three letters, digits, underscores or hyphens |
| FormRules.IdCodeExactly | internal/domain/form_definition.go:235-238 | the invalid-identifier code of a field |
| FormRules.DuplicateCodeExactly | internal/domain/form_definition.go:239-242 | the duplicate code: an earlier field has the same trimmed identifier |
| FormRules.CaptionCodeExactly | internal/domain/form_definition.go:243-245 | the missing-label code |
| FormRules.DataTypeCodeExactly | internal/domain/form_definition.go:246-248 | the data-type code, from the seven accepted types |
| FormRules.WidgetCodeExactly | internal/domain/form_definition.go:249-251 | the widget code, from the eleven accepted widgets |
| FormRules.RuleCodesExactly | internal/domain/form_definition.go:252-265 | the codes for pattern, lengths, values and missing options |
| FormRules.TextLengthsExactly | internal/domain/form_definition.go:257-259 | accepted length bounds admit some text if and only if the upper one is not negative |
| FormRules.BindingCodesExactly | internal/domain/form_definition.go:322-360 | each code of a binding if and only if its condition |
| FormRules.FilterCodesExactly | internal/domain/form_definition.go:332-349 | each code of a filter if and only if its condition |
| FormRules.BoundFieldExactly | internal/domain/form_definition.go:266-268 | a field gets the codes of its binding and no others of that kind |
| FormRules.LayoutCodesExactly | internal/domain/form_definition.go:270-285 | the codes of a row: empty, an unknown field, a field placed before in reading order |
| FormRules.MissingExactly | internal/domain/form_definition.go:286-290 | the missing-field code: a declared field in no row |
| FormRules.StageCodesExactly | internal/domain/form_definition.go:297-309 | the duplicate, type and retired-groups codes of a stage |
| FormRules.StageIdExactly | internal/domain/form_definition.go:294-296 | the identifier code of a stage |
| FormRules.StageTextsExactly | internal/domain/form_definition.go:304-312 | the label and approver codes of a stage |
| FormRules.SchemaCodesExactly | internal/domain/form_definition.go:226-231 | the codes of the schema as a whole |
| FormRules.ControlExactly | internal/domain/form_definition.go:380-401 | a control carries the field's own columns, empty parts left out |
| FormRules.KindExactly | internal/domain/form_definition.go:440-448 | the runtime type of a control |
| FormRules.KnownKindExactly | internal/domain/form_definition.go:440-448 | an accepted field compiles to a type the runtime knows if and only if its widget has no surrounding whitespace |
| FormRules.PaddedWidgetIsUnknown | internal/domain/form_definition.go:440-448 | an accepted field that does not |
| FormRules.RowExactly | internal/domain/form_definition.go:370-374 | a row node's identifier, its number when it has none, and one column a slot |
| FormRules.StageNodesExactly | internal/domain/form_definition.go:405-408 | the compiled stages, column by column |
| FormCompiler.NoControlIsLayout | internal/domain/form_definition.go:419-448 | no accepted widget compiles to the type of a layout node |
| FormCompiler.CompileFormDefinitionSchemaV2 | internal/domain/form_definition.go:363-410 | compiles exactly the well-formed schemas, to one row node per row followed by the controls of its slots |
| FormCompiler.RecoverRows | internal/domain/form_definition.go:369-403 | splitting the list at layout nodes gives back the rows in order, each with exactly its own controls |
| FormCompiler.RoundTripExactly | internal/domain/form_definition.go:363-404 | for an accepted schema the authored layout is read back, and there are rows plus fields nodes, if and only if no identifier has surrounding whitespace |
| FormCompiler.EverySlotIsItsField | internal/domain/form_definition.go:375-401 | then the k-th control of a row is the whole compiled field the author put there, under that row and slot |
| FormCompiler.UntrimmedFieldVanishes | internal/domain/form_definition.go:377-379 | an accepted schema whose only field compiles to nothing |
| LeaveLedger.AppendIsIdempotent | internal/repository/memory/store.go:1911-1921 | keys stay distinct, nothing is lost, and a known key adds nothing |
| LeaveLedger.ApplyLeaveBalanceOverlay | internal/service/attendance_leave_overlay_service.go:45-68 | every balance becomes its snapshot plus its entries, with pending and local use |
| LeaveLedger.OverlayIsOrderFree | internal/service/attendance_leave_overlay_service.go:45-68 | the order of entries does not matter |
| LeaveLedger.OverlayAdds | internal/service/attendance_leave_overlay_service.go:45-68 | a concatenation of entries adds the effects |
| LeaveLedger.OverlayConserves | internal/service/attendance_leave_overlay_service.go:45-68 | with distinct balances the projected total is the snapshots plus all entries posted to them |
| LeaveMatching.MatchNexusLeaveRecord | internal/service/attendance_leave_reconciliation_service.go:81-112 | the only unclaimed candidate that agrees in everything, if there is exactly one, and all candidates |
| LeaveMatching.LeaveService.ReconcileEHRMSLeaveRecord | internal/service/attendance_leave_reconciliation_service.go:13-79 | the new match, the requests' verdicts and the ledger entries of one reconcile |
| LeaveMatching.LeaveService.SyncEHRMSLeaveDetailRecord | internal/service/ehrms_service.go:2428-2445 | a synced record keeps the match the store has and is reconciled |
| LeaveMatching.LeaveService.AppendExternalReconciliation | internal/service/attendance_leave_reconciliation_service.go:114-131 | nothing for zero minutes or no balance, else one keyed entry |
| LeaveMatching.ReconcileIsIdempotent | internal/service/attendance_leave_reconciliation_service.go:13-79 | reconciling again changes no match, no request and no entry |
| LeaveMatching.EveryRunKeeps | internal/service/attendance_leave_reconciliation_service.go:86-103 | over every run no two eHRMS records share a Nexus record and ledger keys are unique |
| LeaveMatching.MatchesAgree | internal/service/attendance_leave_reconciliation_service.go:92-108 | a match agrees on employee, type, year, start, end and net minutes with a live record no other has |
| LeaveMatching.OwnBook | internal/service/attendance_leave_reconciliation_service.go:24-46 | leaving a match brings the record's sum to zero and entering one adds its minutes unless its key is known |
| LeaveMatching.TelescopesExactly | internal/service/attendance_leave_reconciliation_service.go:24-46 | over every run with fixed minutes and balance the external entries sum to the minutes while matched and to zero otherwise, if and only if the record is not back at a Nexus record it left |
| LeaveMatching.ReturnLosesTheMinutes | internal/service/attendance_leave_reconciliation_service.go:127 | a concrete run after which a matched record's entries sum to zero |
| LeaveBalances.OverlayExactly | internal/service/attendance_leave_overlay_service.go:45-68 | a shown balance from the sums of its entries of each of the seven types: pending, used and remaining |
| LeaveBalances.SyncPostsExactly | internal/service/attendance_leave_reconciliation_service.go:114-131 | every entry a sync posts is on the balance the record names, for its minutes, of the right type and under its own key |
| LeaveBalances.TombstonePostsExactly | internal/service/attendance_leave_reconciliation_service.go:22-27 | likewise when a record disappears |
| LeaveBalances.RunOnBalance | internal/service/attendance_leave_reconciliation_service.go:114-131 | over every run with fixed minutes and balance all external entries of a record are on that balance, with the amount their key says |
| LeaveBalances.MinutesReachTheBalance | internal/service/attendance_leave_reconciliation_service.go:24-46 | over every such run the record adds to its own shown balance its minutes, exactly while matched and not back at a Nexus record it left, and otherwise, and to every other balance, nothing |
| LeaveBalances.SyncMatchesExactly | internal/service/attendance_leave_reconciliation_service.go:81-112 | a synced record is matched to a Nexus record if and only if it is live and that is the only free live one with the same employee, type, year, times and minutes |
| LeaveBalances.SyncShowsExactly | internal/service/attendance_leave_reconciliation_service.go:44-62 | matched, unmatched, mismatch and ambiguous, each if and only if its condition on how many comparable records there are |
| LeaveBalances.RequestsShowExactly | internal/service/attendance_leave_reconciliation_service.go:24-73 | what every leave request shows after a sync |
| LeaveBalances.TombstoneExactly | internal/service/attendance_leave_reconciliation_service.go:17-38 | the records and requests after a record disappears |
| ModelSync.RoutesExactly | internal/jobs/litellm_model_sync.go:203-222 | when a model is routed as configured, when removed, and that otherwise its route stays; a disabled one goes exactly if its key can be read |
| ModelSync.SucceedsExactly | internal/jobs/litellm_model_sync.go:203-236 | when a reconcile of one model reports success |
| ModelSync.SweepsExactly | internal/jobs/litellm_model_sync.go:152-169 | which routes a sweep leaves, with removals that may fail |
| ModelSync.ModelSyncer.ReconcileModel | internal/jobs/litellm_model_sync.go:203-236 | no remote call without a usable key, else the wanted route, and success only with the result stored |
| ModelSync.ModelSyncer.Reconcile | internal/jobs/litellm_model_sync.go:115-149 | the registry after all listed tenants and the sweep, the count of listed models plus orphans, and when it reports no error |
| ModelSync.ModelSyncer.SweepOrphanModels | internal/jobs/litellm_model_sync.go:152-169 | removes exactly the remote models not in the given set, as far as removals take effect, and counts them all |
| ModelSync.ModelSyncer.HandleAgentModelSyncEvent | internal/jobs/litellm_model_sync.go:76-107 | an upsert routes the stored row or does nothing if it is gone, a delete removes, and each reports an error exactly when its calls do |
| ModelSync.ReconcileConverges | internal/jobs/litellm_model_sync.go:115-149 | when every model succeeds, the routed models are exactly the enabled ones of the listed tenants, with their configurations |
| ModelSync.WholeRegistryExactly | internal/jobs/litellm_model_sync.go:126-138 | that is the whole registry if and only if every unlisted tenant has only disabled models |
| ModelSync.LastEventDecides | internal/jobs/litellm_model_sync.go:76-107 | whatever the order, failures and repetitions, what is routed for an identifier depends only on the last event that took effect on it |
| ModelSync.EventsConverge | internal/jobs/litellm_model_sync.go:76-107 | with deletes only of vanished rows no deleted model returns and every identifier touched agrees with the local rows |
| ModelSync.EventsAreOrderFree | internal/jobs/litellm_model_sync.go:76-107 | then the order of events does not matter |
| ModelSync.DisagreesExactly | internal/jobs/litellm_model_sync.go:76-107 | an identifier some event took effect on is not routed as its row wants if and only if its last such event was a delete and the row is enabled |
| ModelSync.LateDeleteRemovesLiveModel | internal/jobs/litellm_model_sync.go:92-94 | a delete handled while the row exists removes a live model |
| DailyAdapters.AttendanceDailyRecordFromSummary | internal/domain/attendance.go:350-385 | the stamped payload, minutes, and instants with ends moved to the next day |
| DailyAdapters.SummaryRoundTrip | internal/domain/attendance.go:350-402 | sheet to record to sheet keeps the seven fields, texts up to trimming |
| DailyAdapters.RecordRoundTripExactly | internal/domain/attendance.go:350-456 | record to sheet to record keeps minutes and instants if and only if they are non-negative, on the minute, the start on the work date, the end within the following day |
| DailyAdapters.HoursExactly | internal/domain/attendance.go:404-409 | minutes are the hours to the nearest, none for a negative number |
| DailyAdapters.TimesExactly | internal/domain/attendance.go:411-428 | the instant a time text means, with or without a date and seconds, and when it means none |
| DailyAdapters.EndsFollow | internal/domain/attendance.go:376-383 | ends of bare times fall within the day after their starts |
| DailyAdapters.HoursShownExactly | internal/domain/attendance.go:440-456 | stamped hours before the source's column before the minutes |
| DailyAdapters.TimeShownExactly | internal/domain/attendance.go:430-438 | the stamped text before the minute of the record's instant |
| DailyAdapters.PayloadsKept | internal/domain/attendance.go:351-358 | no other payload value is lost either way |

## Left out

- Bulk projection of many employee-days (`projectAttendanceDays`), the mirrored local daily record, and materialising the default policy version: they repeat the single-day path.
- HTTP handlers, configuration, telemetry, authorization, field policies, audit logging and tenant scoping. One tenant is modelled where the code selects by tenant.
- The OpenFGA message consumer with its in-memory set of processed identifiers: delivery there rests on the message broker, which is not modelled.
- Routing of outbox event types to handlers and decoding of their payloads: the outcome of an attempt, including that no handler is registered, is an input.
- Floating point: minutes and hours are computed exactly.
- The SHA-256 fingerprint is taken as injective on its source, identifiers as integers ordered like their strings, times of day as minutes already parsed (negative when unparsable).
- Geofence distance and accuracy are boolean inputs of a punch; texts of a correction request are parsed already and their lengths are boolean inputs. Resubmitting a correction form is not modelled.
- Library sorting is used by its contract (some ordered permutation; stable where the code asks for it), and regular-expression compilation as a boolean of the schema.
- FormDefinitions.ValidateFormDefinitionSchemaV2: errors are a set of place and code; their order, repetition and messages are not modelled.
- LeaveMatching.LeaveService.ReconcileEHRMSLeaveRecord: a reconcile runs as one step; a failure in its middle and two concurrent reconciles (which the database's unique index rejects) are not modelled, nor are update timestamps.
- LeaveMatching.TelescopesExactly: assumes non-zero minutes, as the database requires, and a balance for the record; a change of minutes between syncs is outside the law.
- Confirmations.ConfirmationService.ExecuteAgentConfirmation: the four kinds of protected action are one action with an arbitrary outcome; the audit entry written after completion is left out.
- ModelSync.WholeRegistryExactly: assumes every remote removal and every listed model's calls succeed, and that models do not move between tenants during a pass.
- DailyAdapters.RecordRoundTripExactly: for records whose payload has none of the adapter's keys; sub-second digits in time texts are kept, other date formats are not accepted, as in the code.
- The choice among equally due outbox rows that another transaction has locked is an input of the claim.
