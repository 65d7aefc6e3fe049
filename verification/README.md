# sleepd: suspend, activities, alarms and shutdown

A Dafny model of sleepd, the power-management daemon with a main loop for bus
calls and a suspend thread. `dafny verify dfyconfig.toml` checks everything.

Four cores are modelled, one module per source file or concern.

1. **The suspend cycle.** `SuspendMachine` is the eight-state machine, run to
   completion against every behaviour of its environment and proved equal to a
   closed-form trace. `Clients` is the vote accounting of the two rounds, `VoteWait`
   the mutex, the condition variable and the voter's signal step by step, `Retry`
   the exponential back-off and the "not before" hold, `IdleCheck` the periodic
   decision to suspend.
2. **Activities and wakelocks.** `Activity` is the sorted roster with freeze and
   thaw, `WakeLockClients` the legacy lock clients, `PowerLocks` all users of the
   kernel's lock files together, and `PowerSystem` interleaves main loop and suspend
   thread at single mutex regions, atomics and sysfs writes.
3. **The alarm scheduler.** `ReferenceTime`, `TimeoutTable`, `TimerSource`,
   `AlarmQueue` and `LegacyAlarms` are the code, `Lateness` how late a row can fire
   while awake, and `AlarmRuns` what survives clock steps and how the legacy queue
   agrees with the table.
4. **The shutdown sequence.** `Shutdown`: dispatcher, acks, 15 second timers and
   the forced path.

Where the source changes state in place the model is a class whose methods are
proved against specification functions on values; interleavings and whole runs are
stated over those values as state machines with one action per atomic step.

The kernel is assumed not to go down while any wakelock is held, as the comments at
`src/pwrevents/suspend.c:1509-1513` and `src/pwrevents/suspend_ipc.c:137-142` say.
One step of the alarm scheduler sees one second of each clock.

## What the proofs found

- Whole seconds of the wall clock and of the boot-time clock change at different
  moments, so updates see steps of +1 and -1 second with no one setting a clock.
  A step of exactly -1 is taken for a failed reading and not passed on
  (`src/alarms/timeout_alarm.c:741-748`), so relative timeouts drift later and, with
  two updates a second, never fire (`PhaseShiftPostponesRelativeRows`).
- Arming ahead of a suspend (`src/pwrevents/suspend.c:1070`) looks only at rows still
  to come, by a reference time not updated since the last handler. A wakeup row that
  is due but has not fired, when the machine then does not go down, can wait up to a
  week (`PreArmForgetsOverdueRow`), and with nothing overdue the phases of the clocks
  alone can cost more than two seconds (`LaggingReArmIsLate`). `ReArmExactly` says when.
- With a wakeup row pending the timer ignores all other rows, which can be late by up
  to a week even while the machine is awake (`OtherRowsWait`); `AnyRowExactly` says when.
- An expiry pass of the suspend thread between the insert and the lock write of an
  activity start, at a time past the activity's end, leaves a kernel wakelock held
  until that activity is started and ended again (`LeakExactly`, `LeakStays`,
  `RestartEndsLeak`).
- A reset that comes inside a back-off can leave a delay that does not belong to the
  streak; `InterleavedResetExactly` says in which orders. A hold computed from an old
  clock reading cuts the base interval short (`StaleReadingBreaksInterval`), and a
  negative base breaks the doubling (`ClosedFormExactly`).
- A second-round NACK whose voter takes the mutex before the suspend thread is not
  heard until the deadline, any other is (`HeardExactly`), and a required client that
  leaves blocks approval for the rest of the round (`LeaverBlocksApproval`).
- A clock step that leaves an alarm behind which has fired its row already, and is not
  due any more afterwards, strands it in the queue with neither row nor, once the message
  is delivered, anything to fire it (`UpdateAgreesExactly`, `BackwardStepStrandsAlarm`):
  a calendar alarm at a step back, any alarm at a step of -1.
- Cancelling a shutdown registration by name never removes an application
  (`CancelByName`), and a second `initiate` drops the first caller's reply.

## Model

| member | source | states |
|---|---|---|
| `SuspendMachine.Machine.SuspendStateUpdate` | `src/pwrevents/suspend.c:611-633` | for every trigger and environment the machine terminates in On with no event pending, not forced and not frozen; the pass adds exactly its closed-form trace, and the whole run stays matched and justified |
| `SuspendMachine.Machine.StateOn` | `src/pwrevents/suspend.c:673-703` | consumes the event, remembers whether the cycle is forced, and heads where the closed form says |
| `SuspendMachine.Machine.StateOnIdle` | `src/pwrevents/suspend.c:714-723` | an idle cycle goes on exactly when the machine may sleep |
| `SuspendMachine.Machine.StateSuspendRequest` | `src/pwrevents/suspend.c:738-818` | the first round lets the cycle through on approval or timeout and otherwise ends it silently in On |
| `SuspendMachine.Machine.StatePrepareSuspend` | `src/pwrevents/suspend.c:828-905` | the second round leads to Sleep on approval or timeout and otherwise to an abort that still sends its resume |
| `SuspendMachine.Machine.CheckActivitiesActive` | `src/pwrevents/suspend.c:978-987` | passes the answer of the roster on, and freezes on a clear one only without wakelocks |
| `SuspendMachine.Machine.StateSleep` | `src/pwrevents/suspend.c:1005-1094` | all vetoes in order, at most one attempt, thawed on every way out but the activity resume and the forced flag cleared on all |
| `SuspendMachine.Machine.StateResume` | `src/pwrevents/suspend.c:1119-1191` | every cycle that prepared ends with one resume whose type says how, and back in On |
| `SuspendMachine.SleepsExactlyWhen` | `src/pwrevents/suspend.c:1055-1088` | the kernel is asked if and only if each round timed out or approved, no shutdown, alarm armed, and forced or (no activity and MachineCanSleep); frozen over it exactly in an unforced pass without wakelocks; backed off if and only if it then refused |
| `SuspendMachine.RoundSays` | `src/pwrevents/suspend.c:764-776` | a round times out if and only if nobody approved at once and the wait ran out, and lets the pass through on a timeout or approval |
| `SuspendMachine.SignalsExactlyWhen` | `src/pwrevents/suspend.c:714-776` | suspendRequest goes out if and only if forced or idle with MachineCanSleep, prepareSuspend and one resume if and only if the first round then timed out or approved |
| `SuspendMachine.RoundsEndAs` | `src/pwrevents/suspend.c:828-875` | each round that is held ends as its votes and its wait say |
| `SuspendMachine.SaysExactlyWhy` | `src/pwrevents/suspend.c:1028-1094` | suspended goes out if and only if StateSleep is reached with no refusal streak; the resume says kernel, activity or abort for exactly that reason |
| `SuspendMachine.BodyIsCycle` | `src/pwrevents/suspend.c:1005-1094` | between prepareSuspend and resume: only suspended, at most one attempt and its back-off; the resume is of type kernel exactly when MachineSleep returned true |
| `SuspendMachine.PassIsMatched` | `src/pwrevents/suspend.c:828-905` | in a pass every prepareSuspend has its resume later in the same cycle and every resume its prepareSuspend |
| `SuspendMachine.CycleIsMatched` | `src/pwrevents/suspend.c:1160-1191` | a cycle bracketed by prepareSuspend and resume is matched whatever comes before it |
| `SuspendMachine.PassIsJustified` | `src/pwrevents/suspend.c:738-905` | every MachineSleep directly follows two rounds, each ended by approval or timeout |
| `SuspendMachine.RunsStayMatched` | `src/pwrevents/suspend.c:611-633` | matching survives any sequence of passes |
| `SuspendMachine.RunsStayJustified` | `src/pwrevents/suspend.c:611-633` | so does the justification of every attempt |
| `Retry.RetryPolicy.ResetRetry` | `src/pwrevents/suspend.c:552-567` | from any policy a reset restores the closed form, and moves the hold only when the delay differed |
| `Retry.RetryPolicy.BackOff` | `src/pwrevents/suspend.c:579-609` | from any stored delay the delay imposed lies between base and cap; from the closed form it is the closed form |
| `Retry.RetryPolicy.HoldAfterAbort` | `src/pwrevents/suspend.c:1130-1148` | from any policy an abort keeps a longer hold and otherwise imposes the base interval; the idle check is scheduled within a millisecond of the hold |
| `Retry.RetryPolicy.HoldAfterResume` | `src/pwrevents/suspend.c:1184-1188` | from any policy a resume ends the streak and imposes the base interval |
| `Retry.RetryPolicy.IdleGate` | `src/pwrevents/suspend.c:406-467` | open exactly when the hold is over, otherwise back in the first millisecond after it |
| `Retry.ClosedFormExactly` | `src/pwrevents/suspend.c:579-609` | the stored delay is min(base*2^streak, max(cap, base)) for every streak if and only if base >= 0 |
| `Retry.DoublesUpToCap` | `src/pwrevents/suspend.c:592-604` | one refusal takes the closed form of a streak to that of the next |
| `Retry.StoredInRange` | `src/pwrevents/suspend.c:588-604` | the closed form stays between base and cap, so the doubling cannot overflow |
| `Retry.ConsistentAlways` | `src/pwrevents/suspend.c:552-609` | the arithmetic of the code keeps the closed form over any sequence of refusals, aborts, resumes and resets, none inside another |
| `Retry.AwakeForBaseInterval` | `src/pwrevents/suspend.c:1119-1188` | after an abort or resume no idle check triggers within the base interval, whatever is stored and whatever follows, resets and back-offs inside each other included |
| `Retry.RefusalHoldsItsDelay` | `src/pwrevents/suspend.c:579-609` | without a reset no idle check triggers before the refusal's delay, less under one millisecond of truncation |
| `Retry.StaleReadingBreaksInterval` | `src/pwrevents/suspend.c:545-567` | a hold stored after a resume keeps the base interval if and only if its clock reading is not older than the resume |
| `Retry.BackoffBoundedUnderInterleaving` | `src/pwrevents/suspend.c:552-604` | with resets between single atomic accesses the stored delay still stays between base and cap |
| `Retry.InterleavedResetExactly` | `src/pwrevents/suspend.c:552-604` | for every base, cap and streak, a reset interleaved with a back-off in any order leaves the closed form if and only if both counters see the same order, or the delays concerned coincide (first refusal, base 0, or the cap reached) |
| `Retry.SameDelay` | `src/pwrevents/suspend.c:579-609` | two streaks have the same delay if and only if the base is 0 or the shorter has reached the cap |
| `Retry.ResetEndsHold` | `src/pwrevents/suspend.c:552-567` | after a reset or a resume the idle check may trigger one base interval later at the latest, whatever was refused or aborted before |
| `Retry.StoredIs` | `src/pwrevents/suspend.c:579-609` | the closed form is the base doubled per refusal, cut at the larger of cap and base |
| `IdleCheck.Checker.Check` | `src/pwrevents/suspend.c:349-489` | triggers if and only if no shutdown, display off, hold over, no unexpired activity, no wakeup timeout near and suspend active; expired activities go whatever the display does |
| `IdleCheck.Checker.Reschedule` | `src/pwrevents/suspend.c:470-488` | the next check comes after the poll interval, the longest activity or the hold, whichever is longest, and no later |
| `IdleCheck.Checker.ScheduleIdleCheck` | `src/pwrevents/suspend.c:293-328` | zero or less fires now and keeps the poll interval for the next arming |
| `IdleCheck.OnlyUnexpired` | `src/pwrevents/suspend.c:392-436` | dropping entries at an earlier reading changes nothing about who is unexpired at a later one |
| `Clients.ClientTable.ClientRegister` | `src/pwrevents/client.c:151-169` | registering again starts the client over, without adjusting the counters |
| `Clients.ClientTable.ClientUnregister` | `src/pwrevents/client.c:177-183` | the entry goes, the counters stay |
| `Clients.ClientTable.ClientUnregisterByName` | `src/pwrevents/client.c:255-282` | one client of that name goes, if there is one |
| `Clients.ClientTable.SuspendRequestRegister` | `src/pwrevents/client.c:510-529` | the expected count moves with the flag, once per change |
| `Clients.ClientTable.PrepareSuspendRegister` | `src/pwrevents/client.c:539-560` | the same for the second round, reporting an unknown client |
| `Clients.ClientTable.InitVotes` | `src/pwrevents/client.c:569-606` | all answers forgotten, required clients counted for both rounds |
| `Clients.ClientTable.VoteSuspendRequest` | `src/pwrevents/client.c:616-641` | the mark becomes the vote, an ACK counts once per change of mark; decisive if and only if NACK or completing ACK |
| `Clients.ClientTable.VotePrepareSuspend` | `src/pwrevents/client.c:652-677` | the same for the second round |
| `Clients.VoteMarks` | `src/pwrevents/client.c:616-677` | a vote of a present client leaves its mark, ACK if and only if it was one, raises the ACK count exactly when the mark turns to ACK, and touches no other client or round |
| `Clients.RequireMarks` | `src/pwrevents/client.c:510-560` | a present client is required exactly as it last said, the expected count follows, and nothing else changes |
| `Clients.InitForgets` | `src/pwrevents/client.c:569-606` | no answer is left from anyone, registrations stay, and the expected counts are recounted |
| `Clients.AcksApprove` | `src/pwrevents/client.c:616-677` | with ACKs of required clients and nothing else since VoteInit, the round is approved if and only if each of them has ACKed |
| `Clients.StepAccounts` | `src/pwrevents/client.c:511-677` | one operation keeps: expected = required present + required gone, acks = ACK marks present + ACK marks gone |
| `Clients.VotesAccounted` | `src/pwrevents/client.c:511-677` | the accounting over any sequence of operations |
| `Clients.VotesAccountedFromStart` | `src/pwrevents/client.c:152-677` | the accounting in every state reachable from the empty table |
| `Clients.ApprovalIsUnanimity` | `src/pwrevents/client.c:683-697` | if nobody leaves, deregisters, retracts or votes unasked since VoteInit, approval holds exactly when every required client has ACKed |
| `Clients.OrderlyKeepsAcksRequired` | `src/pwrevents/client.c:616-677` | in an orderly round every ACK belongs to a required client and nothing is unaccounted |
| `Clients.ApprovalExactly` | `src/pwrevents/client.c:683-697` | after any operations approval holds if and only if unasked and vanished ACKs make up for missing and vanished required clients |
| `Clients.LeaverBlocksApproval` | `src/pwrevents/client.c:177-183` | after a required client has left without its ACK, no run without VoteInit, retraction, unasked vote or ACKed deregistration reaches approval |
| `VoteWait.WaitDeadline` | `src/utils/wait.c:84-142` | the absolute deadline is normal and exactly the wait away; a negative wait has none |
| `VoteWait.StepKeepsInv` | `src/pwrevents/suspend.c:748-765` | every step of either thread keeps the lock discipline and the pending signal |
| `VoteWait.InvHolds` | `src/pwrevents/suspend_ipc.c:852-908` | and so does every interleaving |
| `VoteWait.NoLostWakeup` | `src/utils/wait.c:177-185` | under every interleaving a decisive vote of the round, cast before the suspend thread took the mutex or after, leaves the waiter waiting only while its signal is on the way, unless the voter was faster; a signal before the deadline ends the round without timeout |
| `VoteWait.HeardExactly` | `src/pwrevents/suspend.c:828-850` | the signal of a decisive vote, cast at any point of the round, ends the wait before the deadline if and only if the voter takes the mutex after the suspend thread and signals before the deadline |
| `VoteWait.NeverStuck` | `src/pwrevents/suspend.c:741-765` | the two threads never wait for each other |
| `VoteWait.AsksExactly` | `src/pwrevents/suspend.c:754-763` | a round already approved ends without a wait, and any other waits |
| `VoteWait.WaitEndsAs` | `src/utils/wait.c:144-175` | the wait ends in a timeout if and only if the deadline ends it |
| `VoteWait.EarlyNackIsNotHeard` | `src/pwrevents/suspend.c:828-850` | a run in which a second-round NACK is too early and is waited out |
| `Kernel.NamesAreDistinct` | `src/pwrevents/activity.c:439-460` | activities, legacy clients and shutdown never share a kernel lock name |
| `Activity.ExpiredMeans` | `src/pwrevents/activity.c:288-293` | the field-wise test is "strictly past the end" |
| `Activity.ExpiredIsPrefix` | `src/pwrevents/activity.c:607-644` | in a sorted roster the expired entries come first, so stopping early loses none |
| `Activity.EndIsExtreme` | `src/pwrevents/activity.c:306-344` | the first unexpired entry from either end has the least or greatest end time |
| `Activity.AllExpireInTime` | `src/pwrevents/activity.c:116-138` | 15 minutes after the last start nothing is unexpired |
| `Activity.InsertedIds` | `src/pwrevents/activity.c:222-243` | an insert adds its id and keeps ids unique |
| `Activity.RemovedIds` | `src/pwrevents/activity.c:254-277` | a removal takes out that id and no other |
| `Activity.Roster.InsertSorted` | `src/pwrevents/activity.c:222-243` | placed after every entry that ends no later, before every later one; stays sorted |
| `Activity.Roster.RemoveId` | `src/pwrevents/activity.c:254-277` | the entry of that id and nothing else |
| `Activity.Roster.Stop` | `src/pwrevents/activity.c:492-520` | entry and wakelock go together |
| `Activity.Roster.Start` | `src/pwrevents/activity.c:528-545` | replaces the entry of that id; true exactly when not frozen, and then the entry ends after the duration asked for, or 15 minutes if it was longer, and the wakelock is held |
| `Activity.Roster.RemoveExpired` | `src/pwrevents/activity.c:607-644` | exactly the expired entries go, with their locks; empty once 15 minutes have passed since the last start |
| `Activity.Roster.Obtain` | `src/pwrevents/activity.c:306-344` | the true minimum or maximum end time among the unexpired |
| `Activity.Roster.CanSleep` | `src/pwrevents/activity.c:695-700` | if and only if no entry is unexpired |
| `Activity.Roster.GetMaxDuration` | `src/pwrevents/activity.c:710-733` | the true maximum in whole milliseconds |
| `Activity.Roster.Count` | `src/pwrevents/activity.c:189-214` | the number of entries not expired at that time |
| `Activity.Roster.Freeze` | `src/pwrevents/activity.c:747-766` | freezes if and only if nothing is unexpired |
| `WakeLockClients.Registry.Remove` | `src/pwrevents/suspend_ipc.c:180-193` | removing a client that holds its lock releases it |
| `WakeLockClients.Registry.Register` | `src/pwrevents/suspend_ipc.c:251-275` | registering again drops the lock held under the old registration |
| `WakeLockClients.Registry.CancelByToken` | `src/pwrevents/suspend_ipc.c:195-217` | a caller that leaves the bus loses every client it registered, and their locks |
| `WakeLockClients.Registry.SetWakeLock` | `src/pwrevents/suspend_ipc.c:321-341` | written on transitions only |
| `PowerLocks.Daemon.HeldIsWanted` | `src/pwrevents/suspend_ipc.c:127-193` | the kernel lock set is activities in the roster + held clients + the shutdown lock |
| `PowerLocks.Daemon.Inhibit` | `src/pwrevents/suspend.c:1498-1521` | the flag is set once and the lock taken, never released |
| `PowerLocks.Daemon.Handle` | `src/pwrevents/suspend_ipc.c:180-341` | each event does to roster, clients and shutdown flag what its handler is for, and nothing else |
| `PowerLocks.Daemon.HandleAll` | `src/pwrevents/activity.c:492-545` | the equality holds after any run of handlers: re-register, cancel, replace, expiry, frozen starts |
| `PowerSystem.StepKeepsInv` | `src/pwrevents/activity.c:492-545` | every atomic step of either thread keeps promises, freeze, kernel, shutdown and mirror invariants |
| `PowerSystem.NeverDownOverActivity` | `src/pwrevents/suspend.c:978-1094` | under every interleaving the kernel is never down over an unexpired, unstopped activity whose start returned true, in any cycle with wakelocks and in every unforced one without |
| `PowerSystem.NeverDownBeforeItsTime` | `src/pwrevents/activity.c:116-138` | under every interleaving, once a start of so many milliseconds has returned the kernel is not down before they are over, or 15 minutes if it asked for more, unless it is stopped or started again, in the same cycles |
| `PowerSystem.GoesDownExactly` | `src/pwrevents/suspend.c:1055-1088` | an attempt takes the kernel down if and only if forced or (nothing unexpired and the charger allows it), no shutdown, alarm armed, kernel willing, no wakelock held |
| `PowerSystem.ShutdownStopsSuspends` | `src/pwrevents/suspend.c:1498-1527` | at most one MachineSleep after the shutdown flag, and with wakelocks the kernel never goes down after the lock is written |
| `PowerSystem.OneCallAfterFlag` | `src/pwrevents/suspend.c:1498-1527` | counted on the run: one MachineSleep at most once the flag is set, and none takes the kernel down with the shutdown lock held |
| `PowerSystem.ShutdownTakesEffect` | `src/pwrevents/suspend.c:1498-1521` | the first initiate leaves at most the attempt already decided, and on a machine with wakelocks its lock write comes next on the main thread and no suspend outlasts it |
| `PowerSystem.LocksMirrorRoster` | `src/pwrevents/activity.c:528-545` | between handlers every entry has its lock, and no other activity lock is held unless an expiry pass overtook a start |
| `PowerSystem.LeakExactly` | `src/pwrevents/activity.c:528-545` | an expiry pass between insert and lock write of a start leaves a lock without an entry if and only if it looks past the end of the new activity |
| `PowerSystem.LeakStays` | `src/pwrevents/activity.c:492-520` | such a lock stays, and no suspend succeeds, over every run that does not start that activity again |
| `PowerSystem.RestartEndsLeak` | `src/pwrevents/activity.c:528-545` | starting it again and then stopping it or letting it expire releases the lock |
| `PowerSystem.OvertakenStartLeaksLock` | `src/pwrevents/activity.c:528-545` | a reachable run with such a leak |
| `PowerSystem.RemoveIsStep` | `src/pwrevents/activity.c:254-277` | the removal steps do to the map what the code does to its sorted roster, and unlock exactly what they took out |
| `PowerSystem.InsertIsStep` | `src/pwrevents/activity.c:222-243` | so does the insert step, with the end asked for and nothing while frozen |
| `PowerSystem.ExpireIsStep` | `src/pwrevents/activity.c:607-644` | so does the expiry step, releasing exactly the locks of what it took out |
| `PowerSystem.CheckIsStep` | `src/pwrevents/suspend.c:978-987` | the check goes on if and only if forced or nothing is unexpired, and freezes exactly then without wakelocks |
| `Shutdown.TwoTimeoutsSuffice` | `src/pwrevents/shutdown.c:730-868` | a graceful sequence never goes back and each timeout passes one stage, whatever ACKs arrive and whoever comes or goes |
| `Shutdown.InitiateReachesAction` | `src/pwrevents/shutdown.c:629-642` | from Idle a graceful initiate is in Action after two timeouts at the latest |
| `Shutdown.AcksCarryApps` | `src/pwrevents/shutdown.c:368-388` | without timeouts exactly as many ACKs as there are applications are needed |
| `Shutdown.AcksCarryServices` | `src/pwrevents/shutdown.c:824-868` | without timeouts exactly as many ACKs as there are services are needed for the second tier |
| `Shutdown.ActionTakesEveryone` | `src/pwrevents/shutdown.c:730-868` | from Idle with both tables registered and fixed, a sequence without timeouts is in Action if and only if apps + services ACKs have arrived |
| `Shutdown.ConservedSteps` | `src/pwrevents/shutdown.c:687-708` | running, queueing or performing a forced action keeps: requested = performed + waiting, with its kind |
| `Shutdown.Sequence.OneTimer` | `src/pwrevents/shutdown.c:648-677` | exactly one timer is live in AppsProcess and ServicesProcess, none elsewhere |
| `Shutdown.Sequence.Dispatch` | `src/pwrevents/shutdown.c:465-485` | terminates from every reachable state without tripping the monotonicity assertion, exactly where Settle says |
| `Shutdown.Sequence.Turn` | `src/pwrevents/shutdown.c:465-485` | a state function never moves the sequence backwards, the forced path included |
| `Shutdown.Sequence.StateIdle` | `src/pwrevents/shutdown.c:629-642` | only an initiate leaves Idle, and it forgets all votes |
| `Shutdown.Sequence.StateApps` | `src/pwrevents/shutdown.c:648-677` | counters cleared and the 15 second timer started |
| `Shutdown.Sequence.StateAppsProcess` | `src/pwrevents/shutdown.c:730-797` | done on enough ACKs or the timeout, and then forced or on to the services |
| `Shutdown.Sequence.AppsFinished` | `src/pwrevents/shutdown.c:759-786` | the timer is removed unless it is the one firing |
| `Shutdown.Sequence.StateServices` | `src/pwrevents/shutdown.c:804-818` | the same for the services |
| `Shutdown.Sequence.StateServicesProcess` | `src/pwrevents/shutdown.c:824-868` | done on enough ACKs or the timeout |
| `Shutdown.Sequence.StateAction` | `src/pwrevents/shutdown.c:875-894` | the initiate call is answered once |
| `Shutdown.Sequence.ForcedActionRun` | `src/pwrevents/shutdown.c:687-708` | back to Idle by hand, one nyx action of the waiting kind |
| `Shutdown.Sequence.TakeEvent` | `src/pwrevents/shutdown.c:730-749` | an ACK counts once, a timeout overrides the count |
| `Shutdown.Sequence.ClientVote` | `src/pwrevents/shutdown.c:368-388` | the ACK marks its client and counts in any case |
| `Shutdown.Sequence.InitiateShutdown` | `src/pwrevents/shutdown.c:934-962` | suspend inhibited; a second initiate replaces the call to answer, and in Action is answered at once |
| `Shutdown.Sequence.ClientAck` | `src/pwrevents/shutdown.c:997-1035` | counted if the client is found in the table it is looked up in; the last application leads to the services if there are any, with no ACK counted, the last service to Action |
| `Shutdown.Sequence.TimerFires` | `src/pwrevents/shutdown.c:711-724` | a waiting forced action runs with its own kind on this timeout at the latest; otherwise the applications give way to the services if there are any, and these to Action |
| `Shutdown.Sequence.ForceMachine` | `src/pwrevents/shutdown.c:1243-1283` | waits only from Idle with applications registered, otherwise acts at once; requests are conserved |
| `Shutdown.Sequence.CancelRegistration` | `src/pwrevents/shutdown.c:570-575` | the client leaves both tables; the sequence looks again only at its next event |
| `Shutdown.Sequence.CancelByName` | `src/pwrevents/shutdown.c:583-622` | an application is looked up by name but never removed |
| `TimerSource.RearmWindow` | `src/utils/timersource.c:72-103` | an arming lands on a granularity multiple within (-gran/4, +3*gran/4] of the exact time |
| `TimerSource.StrictlyAhead` | `src/utils/timersource.c:72-103` | every re-arm lands strictly after now, at any reading, if and only if 4*interval >= granularity |
| `TimerSource.DispatchesAreSpaced` | `src/utils/timersource.c:147-168` | over any run dispatches are at least the floored interval less gran/4 apart |
| `TimerSource.Source.SetExpiration` | `src/utils/timersource.c:72-103` | due at a multiple of the granularity within (-gran/4, +3*gran/4] of now plus the interval, 1 ms for a zero one; exactly there without granularity |
| `TimerSource.Source.Prepare` | `src/utils/timersource.c:105-137` | ready exactly when due; otherwise never a zero timeout, and sleeping an unclamped one makes it ready |
| `TimerSource.Source.IsOverdue` | `src/utils/timersource.c:272-276` | past the grace, and then ready to be dispatched |
| `TimerSource.Source.Dispatch` | `src/utils/timersource.c:147-168` | a continued source is re-armed from the reading after its callback |
| `TimerSource.Source.SetIntervalSeconds` | `src/utils/timersource.c:213-218` | exact up to a week, modulo 2^32 milliseconds beyond |
| `Clock.GreaterIsOrder` | `tests/unit/stubs/clock.h:44-48` | the field-wise comparison is the order of meanings on normal timespecs |
| `Clock.GetMs` | `tests/unit/stubs/clock.h:63-66` | whole milliseconds, rounded down |
| `ReferenceTime.ReferenceClock.Update` | `src/alarms/reference_time.c:57-89` | the offset follows the wall clock; a failed reading and a step of exactly -1 are reported alike |
| `TimeoutTable.Timeouts.UpdateTimeouts` | `src/alarms/timeout_alarm.c:738-753` | the refinement: after the clock step every row is still in the table or has been fired, fired if and only if due and in expiry order; the rest stays one per identity, RTC and timer are set for what remains |
| `TimeoutTable.Timeouts.FollowClock` | `src/alarms/timeout_alarm.c:741-748` | a clock step reaches rows and legacy alarms unless it looks like a failed reading; every alarm is queued still or has been notified |
| `TimeoutTable.Timeouts.RecalculateTimeouts` | `src/alarms/timeout_alarm.c:300-361` | relative rows move by the step, calendar rows stay |
| `TimeoutTable.Timeouts.ExpireTimeouts` | `src/alarms/timeout_alarm.c:366-447` | what was in the table is still there or has been fired, as often as it was there; fired if and only if expiry <= now, in order of expiry |
| `TimeoutTable.Timeouts.SelectDue` | `src/alarms/timeout_alarm.c:380-384` | the due rows in expiry order |
| `TimeoutTable.Timeouts.NextExpiry` | `src/alarms/timeout_alarm.c:615-631` | the least expiry still to come, of all rows or of wakeup rows |
| `TimeoutTable.Timeouts.GetNextWakeup` | `src/alarms/timeout_alarm.c:450-495` | the least wakeup expiry still to come |
| `TimeoutTable.Timeouts.RtcArm` | `src/alarms/timeout_alarm.c:538-579` | armed at the wall-clock time of the expiry, or cleared; fails only when the platform refuses |
| `TimeoutTable.Timeouts.QueueNextTimeout` | `src/alarms/timeout_alarm.c:600-716` | RTC for the least wakeup expiry or cleared; timer at the clamped distance to the least wakeup row, else the least row, else one hour |
| `TimeoutTable.Timeouts.QueueNextWakeup` | `src/alarms/timeout_alarm.c:724-733` | nothing to arm is no reason to stay awake; otherwise the RTC is set if any wakeup row is still to come, no later than any of them |
| `TimeoutTable.Timeouts.TimeoutSet` | `src/alarms/timeout_alarm.c:777-822` | replaces the row of that identity, then updates: the new row is in the table if still to come, and otherwise fired |
| `TimeoutTable.Timeouts.TimeoutClear` | `src/alarms/timeout_alarm.c:983-1002` | reports whether there was such a row and updates only then |
| `TimeoutTable.UpdateKeepsOneRow` | `src/alarms/timeout_alarm.c:738-753` | an update keeps at most one row per (app_id, key, bus) |
| `TimeoutTable.UpdateMovesRow` | `src/alarms/timeout_alarm.c:741-748` | an update moves the stamp of a surviving row by one second exactly for a relative row at a step of -1 |
| `TimeoutTable.SetKeepsOneRow` | `src/alarms/timeout_alarm.c:777-822` | and so does a set |
| `TimeoutTable.WithoutExactly` | `src/alarms/timeout_alarm.c:937-974` | exactly the rows of that application, key and bus are taken out |
| `TimeoutTable.StepKeepsRows` | `src/alarms/timeout_alarm.c:300-361` | a clock step keeps every row and moves the relative ones, and nothing else about any |
| `TimeoutTable.TimerSecsExactly` | `src/alarms/timeout_alarm.c:639-713` | the timer is set for the next wakeup row, else the next row, a week away at most, else for an hour |
| `TimeoutTable.LeastIsNext` | `src/alarms/timeout_alarm.c:615-667` | the expiry armed for is that of a row still to come which none precedes |
| `Lateness.FiredInTime` | `src/alarms/timeout_alarm.c:600-753` | at every phase of the clocks no row the timer follows is ever as late as the limit, for any limit from 1.751 s on, over every run whose re-arms meet the guard for it; across rounding, early firings and the seven-day clamp |
| `Lateness.NoPreArmIsSafe` | `src/alarms/timeout_alarm.c:738-753` | runs without re-arms from the suspend thread meet it for every limit, so 1.751 s there |
| `Lateness.OrderlyFiredInTime` | `src/alarms/timeout_alarm.c:600-733` | runs that re-arm with nothing followed overdue stay under 2.751 s at every phase |
| `Lateness.ReArmExactly` | `src/alarms/timeout_alarm.c:600-667` | a re-arm keeps every followed row within the limit until the timer fires if and only if it meets the guard |
| `Lateness.AnyRowExactly` | `src/alarms/timeout_alarm.c:639-713` | any row, followed or not and whatever was armed before, stays within the limit until the timer as re-armed fires if and only if the interval fits it |
| `Lateness.RelativeFiredInTime` | `src/alarms/timeout_alarm.c:600-753` | against the boot-clock time it was set for, a followed relative row is late by less than the limit, one second for each step of -1 since and one for the phase |
| `Lateness.NothingOverdueExactly` | `src/alarms/timeout_alarm.c:639-667` | with nothing followed overdue and the next row within a week the clocks alone decide |
| `Lateness.OverdueExactly` | `src/alarms/timeout_alarm.c:639-667` | over an overdue followed row two seconds hold, for interval plus overdue seconds of 1 iff the worst case is under 1 s, of 2 iff it is negative, and beyond that never while the reference time is not ahead of the wall clock |
| `Lateness.StepKeepsInv` | `src/alarms/timeout_alarm.c:600-753` | every step keeps timer and poll in time, a re-arm if and only if it meets the guard |
| `Lateness.UpdateSetsReference` | `src/alarms/reference_time.c:57-89` | after an update the reference time is the wall second and nothing is due, whatever it was before |
| `Lateness.WholeSeconds` | `src/utils/timersource.c:72-103` | an arming by whole seconds is due at the exact time plus a rounding fixed by the phase, and strictly after now |
| `Lateness.FollowsEarliest` | `src/alarms/timeout_alarm.c:639-713` | the interval never exceeds the time to a followed row |
| `Lateness.StartsInTime` | `src/alarms/timeout_alarm.c:1648-1657` | start-up establishes the invariant at any table, offset and phase |
| `Lateness.TimeGoesOn` | `src/utils/timersource.c:105-168` | after at most one step of the main loop time passes, so the bound is not met by standing still |
| `Lateness.PreArmForgetsOverdueRow` | `src/alarms/timeout_alarm.c:601-663` | a re-arm over an overdue row can delay it by any time up to a week |
| `Lateness.LaggingReArmIsLate` | `src/alarms/timeout_alarm.c:601-663` | and one with nothing overdue can exceed two seconds, by the phase of the clocks |
| `Lateness.OtherRowsWait` | `src/alarms/timeout_alarm.c:639-667` | with a wakeup row pending another row can be late by any time up to a week |
| `AlarmQueue.Queue.RecalculateAlarms` | `src/alarms/alarm.c:1001-1033` | relative alarms move by the step, the queue is sorted again, ids are kept |
| `AlarmQueue.Queue.NotifyAlarms` | `src/alarms/alarm.c:1199-1229` | every alarm is queued still or has been notified, notified if and only if due, in order |
| `AlarmQueue.Queue.UpdateAlarmsDelta` | `src/alarms/alarm.c:1035-1049` | step first, then fire |
| `AlarmQueue.Queue.QueueNew` | `src/alarms/alarm.c:948-972` | a fresh id every time, also when the alarm is not added |
| `AlarmQueue.Queue.QueueAdd` | `src/alarms/alarm.c:1071-1120` | inserted in order, every due alarm notified and none lost, no trace on a failed subscription |
| `AlarmQueue.PendingKeepsShape` | `src/alarms/alarm.c:1199-1229` | firing keeps order and distinct ids |
| `AlarmQueue.RecalculatedMembers` | `src/alarms/alarm.c:1001-1033` | the moved alarms, each exactly once, and sorted |
| `AlarmQueue.InsertSorts` | `src/alarms/alarm.c:1111-1113` | a sorted insert keeps the queue sorted |
| `AlarmQueue.SortSorts` | `src/alarms/alarm.c:1024-1026` | a sort keeps every alarm and sorts them |
| `LegacyAlarms.LegacyKeysDiffer` | `src/alarms/alarm.c:225-228` | "key-id" determines key and id, whatever dashes the key has |
| `LegacyAlarms.Alarms.AddAt` | `src/alarms/alarm.c:429-461` | the queue first, then a private row that wakes the machine at the expiry of that alarm and calls sleepd: in the table, or fired if due |
| `LegacyAlarms.Alarms.RelativeExpiry` | `src/alarms/alarm.c:190-211` | malformed outside 0-24 h, 0-59 min, 0-59 s; otherwise the reference time plus 3600 h, 60 min and the seconds |
| `LegacyAlarms.Alarms.AlarmAdd` | `src/alarms/alarm.c:147-262` | the reply and the new table and queue in every case |
| `LegacyAlarms.Alarms.AlarmRemove` | `src/alarms/alarm.c:649-693` | row and alarm of that id go together, also when a clock step is pending, unless the step fires the place the walk stands at |
| `AlarmRuns.DoIsTheCode` | `src/alarms/alarm.c:213-247` | every action does to table, queue and next id what the methods are proved to do |
| `AlarmRuns.MessagesAreCalls` | `src/alarms/timeout_alarm.c:388-430` | the messages in flight count the internalAlarmFired calls among the rows fired, in whatever order |
| `AlarmRuns.RowsMoveExactly` | `src/alarms/timeout_alarm.c:300-361` | over any run of any clock steps a pending calendar row keeps its expiry, and a relative row its expiry - clock_to_reference but for exactly one second per update that saw a step of -1 |
| `AlarmRuns.RowsConservedExactly` | `src/alarms/timeout_alarm.c:738-753` | so a relative row is conserved if and only if no update of the run saw such a step |
| `AlarmRuns.AlarmsMoveExactly` | `src/alarms/alarm.c:1001-1049` | the same for every queued legacy alarm, and none appears under an old id |
| `AlarmRuns.UpdateMovesAlarm` | `src/alarms/timeout_alarm.c:738-753` | one update moves the stamp of a surviving alarm by one exactly for a step of -1 |
| `AlarmRuns.PhaseShiftPostponesRelativeRows` | `src/alarms/reference_time.c:66-82` | with no clock ever set, two updates a second half a second apart postpone a relative row for ever |
| `AlarmRuns.UpdateAgreesExactly` | `src/alarms/timeout_alarm.c:738-753` | after an update queue and table agree if and only if every alarm that has fired its row, and that the step does not move along (calendar, or a step of -1), is due still |
| `AlarmRuns.QueueAgreesExactly` | `src/alarms/timeout_alarm.c:738-753` | over runs of any clock steps they agree all the way if and only if every update meets that guard |
| `AlarmRuns.QueueAgreesWithTable` | `src/alarms/alarm.c:213-246` | over any run in which neither clock is read earlier than before, at whatever phases: fresh ids below seq_id, sorted queue, one row per identity, and every queued alarm has its row with the same expiry and kind or is due with a message in flight |
| `AlarmRuns.StartsAgreed` | `src/alarms/alarm.c:213-247` | an empty queue agrees with any table |
| `AlarmRuns.BackwardStepStrandsAlarm` | `src/alarms/alarm.c:738-743` | a run that misses the guard leaves an alarm with neither row nor message |

## Left out

- Luna bus registration, JSON payloads, replies and subscriptions: only the events
  they produce are modelled. `alarmAddCalendar` is `AddAt` with the calendar flag; its
  date parsing is not modelled.
- SQLite, XML files, integrity checks and the reading of saved alarms at start-up:
  statements succeed, rows with equal expiry may fire in any order, and the queue
  starts empty.
- nyx, sysfs and file access beyond "lock set", "alarm accepted or refused" and "went
  down or not"; writes to the lock files succeed.
- Configuration, init hooks, logging, statistics, timesaver and instrumentation.
- The test hooks `TESTresetShutdownState` and `TESTSuspend`.
- 32-bit storage of times, names cut at 255 bytes and the wrap-around of alarm ids:
  values are taken in range.
- The watchdog that recreates a lost idle-check source, and the display and charger
  subscriptions, whose results are inputs of `IdleCheck` and `SuspendMachine`.
- `ForceResume` and the broadcast it adds outside any cycle: matching is about the
  machine's own trace.
- Vote counters that a vote callback and `PwrEventVoteInit` update at the same time
  without a lock: each handler's update of the table is one step.
- Spurious wakeups of the condition variable: they end a wait like the signal of an
  older vote, which is modelled.
- LegacyAlarms.Alarms.AlarmRemove: assumes that a clock step pending at the call does
  not fire the alarm to be removed or the next one in the queue, whose nodes the walk
  is standing on (`src/alarms/alarm.c:676-693`); what it does otherwise is undefined.
- SuspendMachine.Machine.CheckActivitiesActive: takes whether an activity is unexpired
  as an input; `Activity.Roster.Freeze` and `CanSleep` prove what the answer means.
- Lateness.FiredInTime: assumes that no clock is set and that handlers take no time.
  Lateness is measured from the expiry as stored; `RelativeFiredInTime` adds what steps
  of -1 have moved it by.
- AlarmRuns.QueueAgreesWithTable: assumes that the boot-time clock can be read, that no
  clock is read earlier than before, and that no bus client calls itself
  `com.palm.sleep`; `QueueAgreesExactly` covers the other steps of the wall clock.
- PowerSystem.NeverDownOverActivity: says nothing about forced cycles on a machine
  without wakelocks, which ignore the roster by design.
- Retry.ConsistentAlways: takes resets and back-offs one after the other; one inside
  another is the subject of `InterleavedResetExactly`.
- NACK statistics of clients and the exponential log counters of the two rounds.
