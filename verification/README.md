# HSL26 decision logic: a Dafny model

This project models the decision logic of an autonomous two-robot pursuit game, a guardian
that captures and an explorer that tries to reach a goal zone, and proves what
that logic is meant to guarantee. It covers the stage lifecycle and the
adjudication of timestamped events, the safety supervisor with its braking
model, the continuous capture search, grid-to-graph extraction and connectivity,
option values, the layered occupancy map, the benchmark episode over two stage
managers, the route cache and the single-flight perception worker.

`dafny verify dfyconfig.toml` checks the whole project.

## Modules

| file | models |
|---|---|
| Adjudication.dfy | what may be concluded from events with interval timestamps |
| StageModel.dfy | every public stage operation as a step from state to state and reply |
| StageInvariant.dfy, StageRuns.dfy, StageJournal.dfy | the invariant of the steps and properties of whole runs |
| StageRequests.dfy, StageAnswers.dfy | exact conditions and effects of every request, the evidence latched, what snapshots show, the reasons given and the journal |
| StageManager.dfy | the stage manager as the mutable object, each method equal to its step |
| Lockstep.dfy, Episode.dfy | two role managers under shared calls, and the episode loop over them |
| Braking.dfy, Safety.dfy | stopping distances and their inverses, the safety evaluator |
| CaptureSearch.dfy, ConvexHull.dfy | bisection for the first capture, the monotone chain |
| Reachability.dfy, Components.dfy, Maze.dfy | reachability, component counting, maze topology and its connectivity check |
| Corridors.dfy | corridor tracing from a grid to a graph and the validation of that graph |
| Extraction.dfy, Connectivity.dfy | node extraction, which corridors become edges, and that the graph connects what the grid connects |
| OptionFusion.dfy, OptionValues.dfy | exact fusion of option models, discounted returns, the value table |
| Occupancy.dfy, RaySampling.dfy | the layered occupancy mapper and the sampling of rays into grid cells |
| RouteCache.dfy | the cache of shortest-path trees |
| BoundedWorker.dfy | the single-flight worker and its executor |
| Arithmetic.dfy, Options.dfy | order facts of real arithmetic, optional values |

Times, versions and identifiers are integers, metres and log-odds are exact
reals. Square roots, Euclidean norms and exponentials enter as values or
functions together with their defining facts. Each public operation of the stage
manager holds its lock throughout, so it is one atomic step.

Where the source updates an object, the model has a class whose methods update
fields and are proved equal to step functions on an abstract state; the
properties of runs are proved about those functions. In `StageManager` the fields
the source always changes together are grouped: the three stage stamps
(`Window`), hold, held event, terminal kind and evidence (`Latch`), the three
event containers (`Store`), each acknowledgement barrier (`Barrier`) and the
audit deque with its counters (`Journal`).

## Behaviour worth knowing

- A local hold can outlive its estimates. After a localization epoch change with
  two or more pending estimates no single event is held, so the hold is not
  released although nothing is pending (`HoldAfterLocalizationChange` gives the
  exact condition, `HoldOutlivesEstimates` a run from a new manager).
- An organizer's terminal decision is not final: `DecisionIsNotFinal` is a run in
  which an abort is overwritten by a capture. `DecisionOutlivesEvent` and
  `DecisionOutlivesDecision` say exactly which decided kinds survive a later event,
  dismissal or confirmation, `DecisionOutlivesDecree` which survive a further
  terminal decision; an official AMBIGUOUS need not (`AmbiguousIsReplaced`).
- The accelerating speed limit alone returns 0 when even standing still is not
  certified; the evaluator is safe because it refuses first when the robot's own
  stopping distance does not fit (`AcceleratingInverse`, `StoppingGuarantee`).
- Corridor tracing turns a corridor between extracted nodes into an edge exactly when
  it can be walked both ways (`EdgeExactlyWhenTwoWay`). A corridor with no way back
  lies within one free block of four cells (`OneWayStaysInSquare`) and leaves no edge,
  as on a grid of just such a block (`OneWayIsNoEdge`). Nothing is cut off by that:
  the graph joins two nodes exactly when the grid does (`GraphKeepsConnectivity`).
- The configured step budget has one step to spare: the steps that cover the
  duration already suffice, and with fewer an episode without a capture exhausts
  its budget (`RunEpisode`).
- The route cache remembers the start order per graph and stamp. Under the policy,
  which refuses frames that are not newer, every answer is that of planning from
  scratch (`PolicyNeverNotices`). Calling the helper directly, a query answers like
  planning from scratch in every world exactly when its position is the one the order
  was computed at (`InvisibleExactlyWhen`, `SecondPoseIsIgnored`).
- AMBIGUOUS can be declared although the official intervals leave no doubt which kind
  came first: two later events that overlap suffice. `AvoidableAmbiguity` says exactly
  when, `AmbiguousThoughSettled` is an example.
- A discarded worker report is not the last word on a request (`DiscardIsNotFinal`).
  A discarded or timed-out request can still complete exactly when its task is
  unfinished at that report and nothing was invalidated since its submission
  (`GivenUpCanComplete`); after a timeout that takes a clock that runs back below
  the deadline (`TimeoutIsFinal`).

## Model

| member | source | states |
|---|---|---|
| Adjudication.SortedUnique | hsl_core/hsl_core/match.py:754-795 | two sorted arrangements of the same events with distinct ids are the same sequence, so sorting makes a canonical form |
| Adjudication.FirstConflictFinds | hsl_core/hsl_core/match.py:754-795 | the pairwise scan finds a conflict exactly when two events of different kinds have intersecting closed intervals, and then returns a real such pair |
| Adjudication.Judge | hsl_core/hsl_core/match.py:754-795 | the nested comparison loops and the evidence maximum compute the verdict function |
| Adjudication.ScanComparisons | hsl_core/hsl_core/match.py:754-795 | the double loop over sorted events returns the first conflict of the specification |
| Adjudication.AmbiguousIffRivals | hsl_core/hsl_core/match.py:754-795 | with an official event on record the verdict is AMBIGUOUS exactly when two known events of different kinds overlap; otherwise its kind is that of an official event |
| Adjudication.EstimatesAloneNeverDecide | hsl_core/hsl_core/match.py:754-795 | without official events nothing is ever decided: rivals only put the stage on hold |
| Adjudication.VerdictNeverInventsOrder | hsl_core/hsl_core/match.py:754-795 | for every choice of true times inside the official intervals, an unambiguous verdict is the kind of whichever official event really came first |
| Adjudication.RivalsCouldCoincide | hsl_core/hsl_core/match.py:754-795 | two events of different kinds are rivals exactly when they could have happened at the same instant |
| Adjudication.SettledExactlyWhen | hsl_core/hsl_core/match.py:754-795 | every choice of true times inside the official intervals gives the same first kind exactly when some official event ends before every official event of another kind begins |
| Adjudication.AvoidableAmbiguity | hsl_core/hsl_core/match.py:754-795 | AMBIGUOUS is declared although the official intervals settle the first kind exactly when known events are rivals and some official event ends before every official event of another kind begins |
| Adjudication.AmbiguousThoughSettled | hsl_core/hsl_core/match.py:754-795 | a concrete set of official events judged AMBIGUOUS although a capture comes first for certain |
| Adjudication.StrongestIsMaximum | hsl_core/hsl_core/match.py:754-795 | the latched evidence is the greatest evidence among the official events |
| Adjudication.VerdictIgnoresArrivalOrder | hsl_core/hsl_core/match.py:754-795 | the verdict depends only on which events are known, not on their arrival order |
| StageInvariant.InitialInv | hsl_core/hsl_core/match.py:416-463 | a new manager satisfies the stage invariant |
| StageInvariant.StepInv | hsl_core/hsl_core/match.py:646-1324 | every public operation, accepted, refused or raising, keeps the stage invariant |
| StageInvariant.RelatchOk | hsl_core/hsl_core/match.py:754-795 | re-adjudication of any store leaves phase, hold, held event and terminal kind consistent with the stored events |
| StageInvariant.SnapshotLegal | hsl_core/hsl_core/match.py:310-366 | a snapshot fails only for time regression or a lease past the stamp range; otherwise the match state it builds is legal |
| StageInvariant.PhaseMeaning | hsl_core/hsl_core/match.py:553-586 | FREEZE means before the freeze end with nothing pending, ACTIVE means inside the active window with no official event, TIMEOUT means the deadline passed, CAPTURE and ARRIVAL mean a recorded proven event of that kind inside the active window |
| StageRuns.RunInv | hsl_core/hsl_core/match.py:646-1324 | the invariant holds after every interleaving of operations |
| StageRuns.EventAdjudicates | hsl_core/hsl_core/match.py:797-913 | a newly accepted event is stored once; with an official event known the state shows exactly the adjudication of all known events, and with estimates alone a running stage is on hold and holds a single estimate while a terminal one keeps its result |
| StageRuns.EventAcceptedExactly | hsl_core/hsl_core/match.py:843-913 | a new event is accepted exactly when it names this stage and its epochs, its whole interval lies in the past and inside the active window, and its evidence is warranted |
| StageRuns.DecisionAdjudicates | hsl_core/hsl_core/match.py:976-1030 | dismissing or confirming takes exactly the named estimate out of the pending ones, a confirmed one becomes official under its id, and the state shows the adjudication of what remains, with or without official events |
| StageRequests.EventLatchesEvidence | hsl_core/hsl_core/match.py:797-913 | after every accepted event with an official event stored, the latched evidence is the one the stored events call for |
| StageRequests.DecisionLatchesEvidence | hsl_core/hsl_core/match.py:976-1030 | the same after every accepted dismissal or confirmation |
| StageRequests.AdvanceExactly | hsl_core/hsl_core/match.py:553-586 | the clock alone makes a running stage follow its window, ends it at the deadline in an estimated TIMEOUT, and moves nothing else |
| StageRequests.StartExactly | hsl_core/hsl_core/match.py:646-697 | a start is accepted exactly for the current stage in INIT, without barriers, from the organizer, with a past official stamp and room for the deadline; the window then begins at that stamp, with no event and no result, and a refusal changes only clock, memory and journal |
| StageRequests.ZoneExactly | hsl_core/hsl_core/match.py:699-736 | a zone is accepted exactly for the current stage, without barriers, in INIT or within the zone window of the freeze, from the organizer and, if it is an accepted zone, with approved reference and frame; it becomes the zone of its own purpose, the other purpose keeps its zone, and a refusal changes no zone |
| StageRequests.ResetExactly | hsl_core/hsl_core/match.py:1032-1097 | a reset is accepted exactly for the current stage, ready or ended, without a reset barrier, from the organizer, with an approved memory profile and an unused new id; it leaves a blank stage of the requested number and role behind a raised reset barrier |
| StageRequests.DecisionExactly | hsl_core/hsl_core/match.py:976-1030 | a dismissal or confirmation is accepted exactly when the organizer names the current stage and a pending estimate and, to confirm it, its kind while it has no pending rival; a refusal changes only clock, memory and journal |
| StageRequests.ConfirmedIsTheSame | hsl_core/hsl_core/match.py:992-1030 | a confirmed estimate is recorded as the same happening, with its id, kind, interval, inputs and zone, on official evidence under the current epochs |
| StageRequests.DecreeExactly | hsl_core/hsl_core/match.py:935-975 | a terminal decision is accepted exactly when the stage has started, no official result other than AMBIGUOUS stands, a TIMEOUT comes after the deadline and a CAPTURE or ARRIVAL has a stored official event of that kind; it is latched as official and changes nothing else |
| StageRequests.KnownEventExactly | hsl_core/hsl_core/match.py:797-841 | an event already on record is answered as accepted exactly when it is equal, and nothing but clock and journal moves |
| StageRequests.RefusedEventExactly | hsl_core/hsl_core/match.py:797-913 | a refused event changes nothing but clock and journal, and without room for it not even the clock |
| StageAnswers.RequestsAreAnswered | hsl_core/hsl_core/match.py:646-1097 | every new request is granted exactly when it has no defect, and refused otherwise with the reason of the first of its defects in a fixed order |
| StageAnswers.EventsAreAnswered | hsl_core/hsl_core/match.py:843-913 | the same for a new event; an accepted estimate is answered as a local hold exactly while the stage runs |
| Adjudication.VerdictIsCalledFor | hsl_core/hsl_core/match.py:754-795 | with an official event known the verdict's kind is AMBIGUOUS exactly among rivals and otherwise that of the official event first in key order |
| Adjudication.VerdictEvidence | hsl_core/hsl_core/match.py:754-795 | with an official event known the latched evidence is, for a kind other than AMBIGUOUS, that of some official event and at least that of every one; for AMBIGUOUS it is the greater one of the rival pair that comes first in key order |
| StageRuns.SameEventsSameResult | hsl_core/hsl_core/match.py:754-795 | two stages that know the same events agree on phase and result however the events arrived |
| StageRuns.ResultNeverInventsOrder | hsl_core/hsl_core/match.py:754-795 | the latched result is AMBIGUOUS exactly for overlapping events of different kinds, and otherwise the kind of the event that really came first |
| StageRuns.DecisionIsNotFinal | hsl_core/hsl_core/match.py:915-975 | a concrete run of a new manager in which a latched official abort is overwritten by a capture |
| StageRuns.DecisionOutlivesEvent | hsl_core/hsl_core/match.py:797-913 | a decided kind outlives a newly accepted event exactly when no official event is known then or the known events call for that kind; TIMEOUT never outlives one |
| StageRuns.DecisionOutlivesDecision | hsl_core/hsl_core/match.py:976-1030 | the same for the dismissal or confirmation of an estimate |
| StageRuns.DecisionOutlivesDecree | hsl_core/hsl_core/match.py:935-975 | a further terminal decision replaces the decided kind exactly when that kind is not official or is AMBIGUOUS and the new kind differs and is warranted; an official kind other than AMBIGUOUS is never replaced |
| StageRuns.AmbiguousIsReplaced | hsl_core/hsl_core/match.py:935-975 | a concrete run of a new manager in which the organizer's AMBIGUOUS is replaced by a TIMEOUT decision |
| StageRuns.HoldAfterLocalizationChange | hsl_core/hsl_core/match.py:1125-1175 | after a localization change in ACTIVE nothing is pending, and the hold survives exactly when it was not the hold of one single estimate |
| StageRuns.HoldOutlivesEstimates | hsl_core/hsl_core/match.py:1158-1161 | a concrete run of a new manager that ends in ACTIVE, on hold, with nothing pending |
| StageRuns.PhaseNeverDecreases | hsl_core/hsl_core/match.py:553-586 | within one stage id the phase only moves forward, and every new stage id was never used before |
| StageRuns.WatchMatches | hsl_core/hsl_core/match.py:1099-1203 | the barriers always equal what an observer of calls and replies would compute as still owed |
| StageRuns.MotionAuthority | hsl_core/hsl_core/match.py:1271-1324 | over every run, motion is authorised exactly when the stage is active and unheld and every acknowledgement owed has arrived; then the clock is inside the active window, nothing is pending and the stage id is new |
| StageRequests.LocalizationExactly | hsl_core/hsl_core/match.py:1125-1175 | a localization change is refused exactly for the epoch in force; otherwise it adopts the new epoch, forgets the estimates and their ids, releases the hold exactly of one held estimate and raises the epoch barrier with nothing acknowledged |
| StageRequests.ClockExactly | hsl_core/hsl_core/match.py:1205-1269 | a clock change is refused exactly for the epoch in force or a used stage id; otherwise it leaves a blank stage under the new epoch and stamp, behind a raised reset barrier, and every request counts as new again |
| StageRequests.AcknowledgedExactly | hsl_core/hsl_core/match.py:1099-1203 | over every run an acknowledgement completes exactly when a reset or change called for it and with it all effects were acknowledged for the current stage since; unknown effects are refused and other stages are answered no |
| StageRequests.NotesTally | hsl_core/hsl_core/match.py:646-1324 | what an observer of calls and replies notes agrees with stage identity, epochs, window, zones, snapshot count and remembered requests after every run |
| StageRequests.SnapshotShows | hsl_core/hsl_core/match.py:1271-1324 | over every run a snapshot shows the stage id, number, role and epochs the accepted calls set, the window from the official start stamp, and as own and target zone those accepted zones that were recorded last for each purpose; it is valid for the lease and numbered in order |
| StageRuns.CacheGrows | hsl_core/hsl_core/match.py:594-644 | running a request body records its request and result under its key; every other step but a clock change keeps all records |
| StageRuns.RecordsPersist | hsl_core/hsl_core/match.py:594-644 | a record survives every run without a clock epoch change |
| StageRuns.AtMostOnce | hsl_core/hsl_core/match.py:594-644 | within a clock epoch a request body runs at most once per key; an equal replay returns the stored result and only advances the clock, another payload is refused |
| StageJournal.StepJournaled | hsl_core/hsl_core/match.py:499-546 | every operation only appends records to the journal |
| StageJournal.JournalIsNewestSuffix | hsl_core/hsl_core/match.py:499-546 | records appended one by one leave the newest part of them, with the dropped ones counted |
| StageJournal.JournalOfRun | hsl_core/hsl_core/match.py:499-546 | the journal of every run is the newest part of the run's log, which extends the log of every shorter run; dropped plus retained equals issued |
| StageAnswers.ClockIsJournaled | hsl_core/hsl_core/match.py:553-586 | the clock journals one record for an elapsed freeze or a deadline reached and none otherwise |
| StageAnswers.StartIsJournaled | hsl_core/hsl_core/match.py:611-697 | a new start request is journalled with its answer, before a transition that is already due |
| StageRequests.ZoneIsJournaled | hsl_core/hsl_core/match.py:611-736 | a new zone request is journalled last with its answer, stage, phase and time |
| StageRequests.DecisionIsJournaled | hsl_core/hsl_core/match.py:915-1030 | so is a new decision |
| StageRequests.ResetIsJournaled | hsl_core/hsl_core/match.py:1032-1097 | so is a new reset request, under the stage it leads to |
| StageRequests.EventIsJournaled | hsl_core/hsl_core/match.py:797-841 | so is every event not yet on record, also when refused |
| StageAnswers.SettledIsJournaled | hsl_core/hsl_core/match.py:594-609 | an equal replay is answered as before and not journalled again; a changed payload and a full memory are refused and journalled |
| StageAnswers.MismatchIsJournaled | hsl_core/hsl_core/match.py:797-841 | another event under a recorded id is refused and journalled |
| StageAnswers.ChangesAreJournaled | hsl_core/hsl_core/match.py:1125-1269 | both epoch changes are journalled last, under the stage and stamp they lead to |
| StageAnswers.AcknowledgementsAreJournaled | hsl_core/hsl_core/match.py:1099-1203 | an acknowledgement while a barrier is up is journalled with whether it completed it, any other one changes nothing |
| StageManagers.StageManager.constructor | hsl_core/hsl_core/match.py:416-463 | construction yields the initial state |
| StageManagers.StageManager.Record | hsl_core/hsl_core/match.py:499-546 | appends one numbered record and drops the oldest at capacity |
| StageManagers.StageManager.AdvanceTime | hsl_core/hsl_core/match.py:553-567 | moves the clock and fires the freeze and deadline transitions of the step function |
| StageManagers.StageManager.SetTimeout | hsl_core/hsl_core/match.py:569-586 | latches TIMEOUT unless the stage is already terminal |
| StageManagers.StageManager.Cached | hsl_core/hsl_core/match.py:594-609 | answers from the cache, refuses a changed payload or a full cache, or lets the body run |
| StageManagers.StageManager.RememberResult | hsl_core/hsl_core/match.py:611-644 | stores the result under its key and journals it |
| StageManagers.StageManager.StartStage | hsl_core/hsl_core/match.py:646-697 | new state and reply equal the start step |
| StageManagers.StageManager.SetGoalZone | hsl_core/hsl_core/match.py:699-736 | new state and reply equal the zone step |
| StageManagers.StageManager.TerminalizeOfficialEvents | hsl_core/hsl_core/match.py:754-795 | phase and latch become the re-adjudication of the stored events |
| StageManagers.StageManager.ResolveEvent | hsl_core/hsl_core/match.py:797-841 | new state and reply equal the event step, duplicates and capacity included |
| StageManagers.StageManager.ResolveEventChecked | hsl_core/hsl_core/match.py:843-913 | the checks run in the source's order, and acceptance stores and re-adjudicates |
| StageManagers.StageManager.ResolveEstimate | hsl_core/hsl_core/match.py:915-1030 | new state and reply equal the organizer's decision step |
| StageManagers.StageManager.ResetStage | hsl_core/hsl_core/match.py:1032-1097 | new state and reply equal the reset step |
| StageManagers.StageManager.AcknowledgeReset | hsl_core/hsl_core/match.py:1099-1123 | new state and reply equal the reset acknowledgement step |
| StageManagers.StageManager.ChangeLocalizationEpoch | hsl_core/hsl_core/match.py:1125-1175 | new state and reply equal the localization step |
| StageManagers.StageManager.AcknowledgeLocalizationEpoch | hsl_core/hsl_core/match.py:1177-1203 | new state and reply equal the localization acknowledgement step |
| StageManagers.StageManager.ChangeClockEpoch | hsl_core/hsl_core/match.py:1205-1269 | new state and reply equal the clock step, which disarms the stage and forgets all requests |
| StageManagers.StageManager.Snapshot | hsl_core/hsl_core/match.py:1271-1324 | new state and reply equal the snapshot step |
| Lockstep.StepTogether | sim/kinematic/benchmark.py:958-966 | two managers that differ only in role, request history and journal answer a shared operation alike up to the role and stay in step |
| Lockstep.PlayTogether | sim/kinematic/benchmark.py:481-592 | they stay in step over every shared run, each keeping its role |
| Lockstep.StartTogether | sim/kinematic/benchmark.py:900-936 | starting both under their own request ids starts them in step with equal replies |
| Episode.SnapshotDuel | sim/kinematic/benchmark.py:958-980 | both snapshots are coherent, show no result before the deadline and TIMEOUT for both from it on |
| Episode.CaptureAccepted | sim/kinematic/benchmark.py:859-883 | a synthetic capture inside the active window is accepted and ends the stage with CAPTURE |
| Episode.CaptureBoth | sim/kinematic/benchmark.py:859-883 | both managers accept the capture and end with it |
| Episode.ObserveBoth | sim/kinematic/benchmark.py:958-980 | observing both managers keeps them together and yields the shared kind |
| Episode.DeadlineAfter | sim/kinematic/benchmark.py:124-126 | the deadline is reached after exactly the rounded-up number of control periods |
| Episode.RunEpisode | sim/kinematic/benchmark.py:403-592 | no divergence, unfinished stage or refused capture is reachable; the episode ends at the first step that captures, otherwise at the deadline, and exhausts its budget only when the budget is below the steps to the deadline |
| Braking.AcceleratingInverse | hsl_core/hsl_core/control/braking.py:56-107 | a speed is at most the admissible speed exactly when it is at most the maximum and its stopping distance fits, from the zero-speed baseline on; below the baseline the limit is 0; the inverse never raises |
| Braking.ConstantInverse | hsl_core/hsl_core/control/braking.py:24-53 | the constant-speed inverse is exact in the same sense |
| Braking.ClosedFormsAgree | hsl_core/hsl_core/control/braking.py:24-107 | both closed forms give the same speed when the delay acceleration is 0 |
| Braking.DiscriminantNonnegative | hsl_core/hsl_core/control/braking.py:102-105 | the negative-discriminant error is unreachable |
| Braking.LimitIsExact | hsl_core/hsl_core/control/braking.py:99-107 | the quadratic root is the exact threshold of the stopping envelope |
| Braking.StoppingIncreases | hsl_core/hsl_core/control/braking.py:56-73 | stopping distance grows strictly with speed |
| Braking.StoppingIsTravelled | hsl_core/hsl_core/control/braking.py:24-73 | both stopping distances are what is travelled at constant acceleration over the delay and then braking to rest |
| Braking.WheelLimit | hsl_core/hsl_core/control/braking.py:110-145 | both wheel rates are within the limit exactly when speed plus half the track times the yaw rate is |
| Safety.CurveSpeedExact | hsl_core/hsl_core/control/safety.py:403-431 | the curve cap is the exact threshold of lateral acceleration, yaw rate and both wheel rates |
| Safety.SafeSpeedExact | hsl_core/hsl_core/control/safety.py:384-431 | the safe speed is the exact threshold of all limits at once |
| Safety.EvaluateTotal | hsl_core/hsl_core/control/safety.py:295-463 | the evaluator never raises |
| Safety.StoppingGuarantee | hsl_core/hsl_core/control/safety.py:389-463 | every track command let through reports its own stopping distance, which fits the clearance it was checked against less the margin, and so does the robot's present one |
| Safety.LimitIsProjection | hsl_core/hsl_core/control/safety.py:432-463 | the applied speed is the largest speed not above the candidate that meets every limit, and ADMIT means the candidate met them |
| Safety.AppliedWithinLimits | hsl_core/hsl_core/control/safety.py:353-463 | the applied command keeps the candidate's curvature and meets the yaw, lateral and wheel limits |
| Safety.LimitIsIdempotent | hsl_core/hsl_core/control/safety.py:432-463 | proposing the applied command again on the same evidence admits it unchanged |
| Safety.CausesAreDefects | hsl_core/hsl_core/control/safety.py:548-598 | validation reports every defect of the evidence exactly once and nothing else |
| Safety.MovesExactlyWhenAllowed | hsl_core/hsl_core/control/safety.py:295-546 | a command is let through if and only if processing was in time, the evidence has no defect, and the motion is drivable or, in place, turnable |
| Safety.FailClosed | hsl_core/hsl_core/control/safety.py:305-347 | STOP is a zero command, ALIGN never translates, and nothing is let through on stale, mismatched or uncovered evidence |
| Safety.StopsExactlyFor | hsl_core/hsl_core/control/safety.py:295-546 | a stop reports processing out of its budget, else exactly the defects of the evidence, else the one first requirement of its mode that the command misses |
| Safety.StopReports | hsl_core/hsl_core/control/safety.py:295-546 | a stop reports the clearance that was looked at and the stopping distance of the robot as it moves |
| Safety.PassReports | hsl_core/hsl_core/control/safety.py:432-546 | ADMIT applies the candidate unchanged, LIMIT a track command that was slowed down, each under its own cause and with the clearance and stopping distance it was checked against |
| CaptureSearch.ClosestIsMinimum | hsl_core/hsl_core/rules.py:562-577 | the clamped fraction minimises the distance over the relative chord |
| CaptureSearch.PruneIsSafe | hsl_core/hsl_core/rules.py:578-579 | a pruned interval holds no instant within the limit |
| CaptureSearch.CertifiedDistances | hsl_core/hsl_core/rules.py:498-515 | a certified interval holds only distances strictly between zero and the limit, and passes the remaining tests |
| CaptureSearch.InterpolatesSteadily | hsl_core/hsl_core/rules.py:491-496 | a segment runs from its first to its last pose, position and heading each at a constant rate |
| CaptureSearch.CaptureExactly | hsl_core/hsl_core/rules.py:532-546 | an instant is a capture exactly when the squared distance lies strictly between zero and the squared limit, the line of sight is free and the bearing fits |
| CaptureSearch.CertifiedExactly | hsl_core/hsl_core/rules.py:498-529 | an interval is certified exactly when the distance at its middle, half of the relative travel off on either side, stays above zero and below the limit, and the remaining tests pass |
| CaptureSearch.SearchExactly | hsl_core/hsl_core/rules.py:549-589 | the bisection succeeds exactly when some interval of its tree is certified or has a capture at an end or the middle, so pruning loses nothing |
| CaptureSearch.SearchIsSound | hsl_core/hsl_core/rules.py:549-589 | whatever the bisection accepts contains an instant strictly within the limit |
| CaptureSearch.SearchHasEvidence | hsl_core/hsl_core/rules.py:580-589 | the bisection accepts only an interval holding a capture instant or a certified part |
| CaptureSearch.SearchIsComplete | hsl_core/hsl_core/rules.py:549-589 | a capture at any dyadic fraction of the deepest level makes the bisection succeed |
| CaptureSearch.FirstCaptureInterval | hsl_core/hsl_core/rules.py:399-593 | the loop returns the stamps of the first segment whose bisection succeeds, and refuses malformed trajectories and bounds |
| CaptureSearch.CaptureIsFound | hsl_core/hsl_core/rules.py:548-593 | a capture on the dyadic grid of a segment is reported no later than that segment |
| CaptureSearch.SampleCaptureIsFound | hsl_core/hsl_core/rules.py:548-593 | a capture at any trajectory sample is reported no later than its segment |
| CaptureSearch.FoundIsReal | hsl_core/hsl_core/rules.py:591-592 | a reported segment contains an instant strictly within the limit, and either a capture instant or a certified part |
| ConvexHull.PopKeeps | hsl_core/hsl_core/rules.py:643-652 | popping a point that does not turn strictly left loses no coverage of the processed points |
| ConvexHull.PushKeeps | hsl_core/hsl_core/rules.py:643-652 | after the pops the new point extends the chain with strict turns and full coverage |
| ConvexHull.BuildChain | hsl_core/hsl_core/rules.py:643-652 | a chain is made of input points, turns strictly left and has every input point on or left of each edge |
| ConvexHull.SortUnique | hsl_core/hsl_core/rules.py:636-638 | the same points, strictly ordered by coordinates |
| ConvexHull.Hull | hsl_core/hsl_core/rules.py:635-653 | for every finite point set, collinear or repeated points included, hull vertices are input points, every input point lies on or left of every directed edge of the closed hull, and the hull is a monotone strictly turning chain from the least to the greatest point and another one back, turning strictly where they meet unless all points are collinear |
| Components.ComponentCount | hsl_core/hsl_core/topology.py:619-634 | the depth-first count is the number of equivalence classes of reachability over positive weights |
| Components.ClassesPartition | hsl_core/hsl_core/topology.py:619-634 | every node lies in exactly one counted class |
| Maze.BuildTopology | sim/kinematic/maze_bank.py:232-282 | nodes are exactly the open cells, each once, and edges join exactly the orthogonally adjacent open cells |
| Maze.Visit | sim/kinematic/maze_bank.py:292-304 | the stack search visits exactly the nodes reachable from its start |
| Maze.ReachIffGridConnected | sim/kinematic/maze_bank.py:232-282 | two open cells are joined in the graph exactly when orthogonal steps through open cells join them in the grid |
| Maze.RequireConnected | sim/kinematic/maze_bank.py:285-308 | the check accepts a maze exactly when every two open cells are joined |
| Corridors.ValidNeighbors | hsl_core/hsl_core/topology.py:226-238 | the neighbours are exactly the free cells one step away whose diagonal steps cut no blocked corner |
| Corridors.OnwardIsFirst | hsl_core/hsl_core/topology.py:441-444 | a corridor goes on to the first legal neighbour in row-major order other than the one it came from, if there is one |
| Corridors.TraceOne | hsl_core/hsl_core/topology.py:436-451 | a walk uses only legal fresh steps, meets no node strictly inside, takes the onward cell each time, and ends only at a node, a dead end or a step taken by an earlier walk or itself |
| Corridors.TraceEdges | hsl_core/hsl_core/topology.py:411-483 | the edges are exactly those walks of the ordered trace that reach a node cell, in canonical orientation and numbered in order |
| Corridors.GraphIsDetermined | hsl_core/hsl_core/topology.py:411-483 | grid and node cells determine the traced edges completely, ids and orientation included |
| Corridors.LeavingStepIsAccounted | hsl_core/hsl_core/topology.py:429-453 | every legal step leaving a node cell is taken by exactly one walk of the trace, which became an edge exactly if it reached a node cell |
| Corridors.CorridorIsOneEdge | hsl_core/hsl_core/topology.py:411-483 | every corridor between node cells in which nothing branches off is exactly one edge, and no other edge takes any of its steps |
| Corridors.TwoWayIffTurnsBack | hsl_core/hsl_core/topology.py:440-451 | a corridor can be walked from its other end exactly when every inner cell, entered from its next cell, goes on to its previous one |
| Corridors.GraphExists | hsl_core/hsl_core/topology.py:411-483 | every grid with given node cells has a traced graph, so tracing always ends |
| Corridors.EdgesDisjoint | hsl_core/hsl_core/topology.py:411-483 | no undirected step occurs in two edges |
| Corridors.AdjacentNodesGetOneEdge | hsl_core/hsl_core/topology.py:430-451 | two adjacent node cells get exactly one edge over their common step, and it is the direct one |
| Corridors.TracedGraphIsValid | hsl_core/hsl_core/topology.py:470-482 | edge ids are unique and in order, endpoints are the node cells in canonical order, every step moves, no node lies inside and no step repeats |
| Corridors.TracedGraphIsAccepted | hsl_core/hsl_core/topology.py:512-521 | graph construction and validation accept every traced graph: positive length, non-negative clearance, canonical endpoints, existing nodes |
| Corridors.StepLength | hsl_core/hsl_core/topology.py:449-460 | the length of a step is the distance of the two cell centres |
| Corridors.LengthAdds | hsl_core/hsl_core/topology.py:457-460 | lengths of paths that meet add up |
| Corridors.LengthBothWays | hsl_core/hsl_core/topology.py:457-468 | an edge has the same length in either orientation |
| Corridors.ClearanceIsLeast | hsl_core/hsl_core/topology.py:456-456 | the clearance of an edge is the least of its cells, attained by one of them |
| Extraction.ExtractNodes | hsl_core/hsl_core/topology.py:360-408 | the nodes are, in row-major order, exactly the free cells at the frontier, with one or with three and more orthogonal neighbours, each with its kind, or the first free cell where there is none |
| Extraction.NodeKindsExactly | hsl_core/hsl_core/topology.py:360-408 | from the grid alone: a free cell is a FRONTIER node exactly when one of its eight neighbours is unknown, otherwise a DEAD_END exactly with one and a JUNCTION exactly with three or more free orthogonal neighbours; only where there is none of these is the first free cell the one ANCHOR, and nothing else is a node |
| Extraction.Extract | hsl_core/hsl_core/topology.py:341-349 | extraction and tracing together: the nodes of the grid and the graph traced between them |
| Extraction.LeavingSorted | hsl_core/hsl_core/topology.py:429-430 | the leaving steps are offered in row-major order, by node and then by neighbour |
| Extraction.EarlierIsTaken | hsl_core/hsl_core/topology.py:429-453 | every leaving step offered before a walk started is taken by the walks before it |
| Extraction.BranchIsCorner | hsl_core/hsl_core/topology.py:226-238 | a cell without a degree event has three legal neighbours only as a corner of a free block of four cells |
| Extraction.OneWayIsLate | hsl_core/hsl_core/topology.py:429-453 | in a free block, a corridor that cannot be walked back starts with a step offered later than its last step is from the other end |
| Extraction.TouchesLate | hsl_core/hsl_core/topology.py:429-453 | in a free block, a walk that takes a step of a two-way corridor sets off along it or was offered after one of its end steps |
| Extraction.TwoWayIsOneEdge | hsl_core/hsl_core/topology.py:411-483 | every corridor between extracted nodes that can be walked both ways is exactly one edge, and no other edge takes any of its steps |
| Extraction.EdgeExactlyWhenTwoWay | hsl_core/hsl_core/topology.py:411-483 | a corridor between extracted nodes becomes an edge exactly when it can be walked both ways, and the edge then runs along it |
| Extraction.OneWayStaysInSquare | hsl_core/hsl_core/topology.py:411-483 | a corridor between extracted nodes that cannot be walked back has at most five cells, all in one free block of four |
| Extraction.OneWayIsNoEdge | hsl_core/hsl_core/topology.py:360-483 | a concrete grid with its extracted node and a corridor from node to node that is no edge |
| Connectivity.GraphKeepsConnectivity | hsl_core/hsl_core/topology.py:332-357 | two extracted nodes are joined by edges of the graph exactly when legal steps through free cells join them in the grid |
| Connectivity.PathIsKept | hsl_core/hsl_core/topology.py:411-483 | nodes at the ends of any path of legal steps are joined by edges |
| OptionFusion.Assess | hsl_core/hsl_core/learning/option_value.py:274-330 | the reported differences are the largest reward and kernel differences, and equivalence holds exactly when every kernel agrees within the tolerance on reward and on each successor class |
| OptionFusion.GapsDecide | hsl_core/hsl_core/learning/option_value.py:316-330 | the largest differences decide agreement within any tolerance |
| OptionFusion.BackupsClose | hsl_core/hsl_core/learning/option_value.py:296-322 | kernels that agree within eps have backups within eps times one plus the sum of absolute values over the target classes |
| OptionFusion.ExactFusionPreservesBackups | hsl_core/hsl_core/learning/option_value.py:296-322 | with tolerance 0 every option has the same discounted backup under every value function |
| OptionFusion.ExactFusionPreservesBest | hsl_core/hsl_core/learning/option_value.py:296-322 | hence the best backup over the options is the same |
| OptionFusion.EqualBackupsAgree | hsl_core/hsl_core/learning/option_value.py:296-322 | conversely, kernels whose backups always agree pass the check with tolerance 0 |
| OptionValues.SplitSegment | hsl_core/hsl_core/learning/option_value.py:139-155 | splitting a rate segment at any instant leaves the return unchanged |
| OptionValues.SegmentsBounded | hsl_core/hsl_core/learning/option_value.py:139-155 | disjoint segments with bounded rate contribute at most the rate times the drop of the discount over beta |
| OptionValues.ReturnExactly | hsl_core/hsl_core/learning/option_value.py:129-163 | beta times the discounted reward is what the discount loses over each rate segment, weighted by its rate, plus beta times the impulses discounted to the end |
| OptionValues.UndiscountedReturn | hsl_core/hsl_core/learning/option_value.py:139-155 | with beta 0 the reward is the rates times their lengths plus the impulses |
| OptionValues.ReturnMeetsBound | hsl_core/hsl_core/learning/option_value.py:129-163 | a return from bounded rates without impulses is at most one minus the discount times the total rate over beta |
| OptionValues.OptionValueTable.Update | hsl_core/hsl_core/learning/option_value.py:79-126 | an applied update moves one entry by eta towards the reward plus the discounted greatest next value, leaves all others and counts one more visit; a refused one changes nothing |
| OptionValues.BackupBacksUp | hsl_core/hsl_core/learning/option_value.py:95-117 | the target less the reward is the discount times a value that some next option attains and none exceeds, and 0 when terminal; the entry becomes one minus eta times the old value plus eta times the target, and every other entry stays |
| OptionValues.BestIsGreatest | hsl_core/hsl_core/learning/option_value.py:103-106 | the bootstrap value is that of some next option and none has a greater one |
| OptionValues.RefusedExactly | hsl_core/hsl_core/learning/option_value.py:88-102 | exactly which transitions are refused, and that the reason given is a real one |
| OptionValues.BackupBounded | hsl_core/hsl_core/learning/option_value.py:95-117 | a backup with a bounded reward keeps every entry within the bound |
| OptionValues.ValuesStayBounded | hsl_core/hsl_core/learning/option_value.py:95-163 | over every sequence of updates with rates bounded by rho, no impulse and beta positive, every entry stays within rho over beta |
| Occupancy.OccupancyMapper.constructor | hsl_core/hsl_core/occupancy.py:189-199 | a new mapper has empty layers at version 0 |
| Occupancy.OccupancyMapper.UpdateBatch | hsl_core/hsl_core/occupancy.py:224-297 | a batch is refused or empty and changes nothing, or all layers, the stamp and the version change together as the merge function says |
| Occupancy.OccupancyMapper.DecayTo | hsl_core/hsl_core/occupancy.py:299-310 | ages every dynamic cell by its own last hit, or refuses time going back |
| RaySampling.UpdateScan | hsl_core/hsl_core/occupancy.py:224-297 | a scan of measured rays changes all layers as the merge of the rays' sampled cells says, or nothing when refused or empty |
| RaySampling.RayFits | hsl_core/hsl_core/occupancy.py:332-351 | a sampled ray names only cells of the grid |
| RaySampling.CellExactly | hsl_core/hsl_core/occupancy.py:343-350 | the cell of a point is the one whose square contains it |
| RaySampling.StepsExactly | hsl_core/hsl_core/occupancy.py:343-343 | the steps are the fewest, at least one, that are no longer than half a cell |
| RaySampling.SamplesExactly | hsl_core/hsl_core/occupancy.py:345-347 | the samples go from origin to endpoint in equal steps |
| RaySampling.ListedExactly | hsl_core/hsl_core/occupancy.py:345-350 | the listed cells are exactly those of the samples inside the grid |
| RaySampling.RayExactly | hsl_core/hsl_core/occupancy.py:332-351 | a sampled ray keeps kind, return and stamp of its reading, ends at its endpoint's cell and crosses exactly the cells of its samples |
| RaySampling.EndsAtEndpoint | hsl_core/hsl_core/occupancy.py:332-351 | a ray of positive length that ends inside the grid ends with its endpoint's cell, so a return takes exactly that cell out of the crossed ones |
| RaySampling.SamplesAreClose | hsl_core/hsl_core/occupancy.py:343-350 | successive samples lie in the same or a neighbouring row and column, so sampling skips no cell row or column |
| RaySampling.NeverRepeats | hsl_core/hsl_core/occupancy.py:343-350 | a ray lists every cell it crosses once |
| RaySampling.RayVotesOnce | hsl_core/hsl_core/occupancy.py:241-261 | a static ray adds the occupied evidence where it returned from, the free evidence exactly once for every other cell it crosses, and nothing elsewhere |
| Occupancy.Accumulate | hsl_core/hsl_core/occupancy.py:243-261 | the dictionaries and the free set hold, per cell, the summed evidence of the whole batch |
| Occupancy.ApplyDelta | hsl_core/hsl_core/occupancy.py:263-274 | exactly the cells with an entry move, each by its capped evidence, in any order of the entries |
| Occupancy.Stamps | hsl_core/hsl_core/occupancy.py:277-295 | each cell gets the newest observation and dynamic-hit stamp of the batch and the map the newest ray stamp |
| Occupancy.RayOrderIrrelevant | hsl_core/hsl_core/occupancy.py:224-297 | an update, refusal included, is unchanged by any permutation of its rays |
| Occupancy.EvidenceAdds | hsl_core/hsl_core/occupancy.py:247-261 | the evidence of two batches together is the combination of theirs |
| Occupancy.MovesWithEvidence | hsl_core/hsl_core/occupancy.py:263-268 | an accepted batch moves a static cell in the direction of its summed evidence, by that evidence or the cap, unless the cell reaches its bound |
| Occupancy.MovementCapped | hsl_core/hsl_core/occupancy.py:263-274 | no batch moves a cell by more than the configured cap |
| Occupancy.BatchCounts | hsl_core/hsl_core/occupancy.py:243-261 | the evidence of a batch about a cell is its number of returns of a kind times the occupied evidence, plus, in the static layer, its number of static crossings times the free evidence |
| Occupancy.DynamicMovesExactly | hsl_core/hsl_core/occupancy.py:269-274 | an accepted batch with k dynamic returns from a cell raises its dynamic log-odds by k times the occupied evidence, at most by the cap and up to the bound; with none it leaves them |
| Occupancy.StaticMovesExactly | hsl_core/hsl_core/occupancy.py:263-268 | static log-odds move by returns and crossings as counted, within cap and bound |
| Occupancy.ReturnOccupies | hsl_core/hsl_core/occupancy.py:224-297 | one dynamic return makes a cell semantically occupied when a return within cap and bound reaches the threshold |
| Occupancy.BatchMarksExactly | hsl_core/hsl_core/occupancy.py:275-296 | an accepted batch marks the crossed cells, keeps each newest stamp, takes on the newest ray stamp and counts one version |
| Occupancy.RefusedExactly | hsl_core/hsl_core/occupancy.py:224-236 | exactly which batches are refused, and that refused and empty ones change nothing |
| Occupancy.SnapshotExactly | hsl_core/hsl_core/occupancy.py:201-222 | the single layers follow their thresholds, and the collision layer is occupied exactly where either is and free exactly where the static one is and the dynamic one is not occupied |
| Occupancy.DecayExactly | hsl_core/hsl_core/occupancy.py:299-310 | decay scales each dynamic cell by its own age and changes nothing else but stamp and version |
| Occupancy.DecayForgets | hsl_core/hsl_core/occupancy.py:299-310 | decay leaves the structural layer alone and turns a semantic cell only from occupied to unknown, exactly when its remaining evidence is below the threshold |
| Occupancy.RunInv | hsl_core/hsl_core/occupancy.py:224-310 | over every run log-odds stay in range, dynamic evidence stays non-negative and no stamp lies in the future |
| Occupancy.MapNeverInvents | hsl_core/hsl_core/occupancy.py:201-310 | over every run a cell is free only after a static ray crossed it, occupied only after a matching return, never semantically free, and observed free exactly when some accepted ray crossed it |
| RouteCaches.TouchFaithful | sim/kinematic/autonomous.py:932-944 | using a tree makes it the newest, evicts beyond two and keeps every retained tree equal to a fresh one |
| RouteCaches.SearchFaithful | sim/kinematic/autonomous.py:932-961 | the cached search over the starts answers as the search that recomputes every tree |
| RouteCaches.RetainedAreCurrent | sim/kinematic/autonomous.py:942-944 | after every run at most two trees are retained, each that of the current graph |
| RouteCaches.CacheIsInvisible | sim/kinematic/autonomous.py:906-961 | over every run of queries and resets each query answers what planning from scratch would, given one pose per stamp |
| RouteCaches.SortNearSorts | sim/kinematic/autonomous.py:918-930 | the starts are all nodes of the graph, nearest first and then by id |
| RouteCaches.NearIsByDistance | sim/kinematic/autonomous.py:919-928 | comparing squared distances is comparing distances |
| RouteCaches.InvisibleExactlyWhen | sim/kinematic/autonomous.py:912-931 | a query answers like planning from scratch in every world exactly when its position is the one the remembered start order was computed at |
| RouteCaches.SecondPoseIsIgnored | sim/kinematic/autonomous.py:918-931 | direct calls of the helper with two positions under one stamp where the cached answer differs from planning afresh |
| RouteCaches.EdgeTableExactly | sim/kinematic/autonomous.py:912-917 | the edge table holds exactly the ids of the edges, each with the last edge of that id |
| RouteCaches.RouteExactly | sim/kinematic/autonomous.py:945-960 | a start gives a route exactly when its tree reaches the node by at least one edge, all edges on the way are open and the path can be clipped with the least clearance on the way |
| RouteCaches.FirstRouteExactly | sim/kinematic/autonomous.py:932-961 | of all starts the first one that gives a route decides |
| RouteCaches.PolicyNeverNotices | sim/kinematic/autonomous.py:341-386 | over every run of the policy, any number of queries per accepted frame and resets at any time, each query answers what planning from scratch would |
| RouteCaches.RouteCache.PathToNode | sim/kinematic/autonomous.py:906-961 | the mutating query leaves the state and gives the answer of the query function |
| RouteCaches.RouteCache.Reset | sim/kinematic/autonomous.py:630-640 | a context reset forgets graph, edges, trees, stamp and starts |
| BoundedWorkers.SingleFlight | hsl_core/hsl_core/perception/bounded_worker.py:63-95 | at most one unfinished task ever exists, and a legal submission on an open worker is refused exactly while one does |
| BoundedWorkers.IdsIncrease | hsl_core/hsl_core/perception/bounded_worker.py:84-85 | request ids strictly increase |
| BoundedWorkers.AtMostOneFinal | hsl_core/hsl_core/perception/bounded_worker.py:102-148 | a request gets at most one completed or failed report and none of any kind afterwards |
| BoundedWorkers.CompletedIsFresh | hsl_core/hsl_core/perception/bounded_worker.py:97-148 | a completed report comes from a submission under the same versions, with no invalidation in between, before its deadline, and carries the value the executor produced |
| BoundedWorkers.DiscardIsNotFinal | hsl_core/hsl_core/perception/bounded_worker.py:119-125 | a concrete run in which a discarded request later completes |
| BoundedWorkers.GivenUpCanComplete | hsl_core/hsl_core/perception/bounded_worker.py:119-133 | a discarded or timed-out request can still complete exactly when its task is unfinished at that report and nothing was invalidated since its submission |
| BoundedWorkers.TimeoutIsFinal | hsl_core/hsl_core/perception/bounded_worker.py:127-133 | a timed-out request completes later only if the clock ran back below its deadline |
| BoundedWorkers.PollExactly | hsl_core/hsl_core/perception/bounded_worker.py:102-148 | over every run a poll is silent without a held request or while it is current, in time and unfinished; otherwise it reports it as discarded, timed out, failed or completed exactly as versions, invalidations, deadline and outcome say, and lets go of a finished one |
| BoundedWorkers.SubmitExactly | hsl_core/hsl_core/perception/bounded_worker.py:63-95 | exactly how a submission is answered, and that an accepted one is queued as the newest task with its deadline from now |
| BoundedWorkers.ClosedExactly | hsl_core/hsl_core/perception/bounded_worker.py:150-157 | a worker is closed exactly after a close |
| BoundedWorkers.CloseExactly | hsl_core/hsl_core/perception/bounded_worker.py:150-157 | closing cancels a task that has not started and leaves every other one |
| BoundedWorkers.BoundedWorker.Submit | hsl_core/hsl_core/perception/bounded_worker.py:63-95 | new state and reply equal the submit step |
| BoundedWorkers.BoundedWorker.Poll | hsl_core/hsl_core/perception/bounded_worker.py:102-148 | new state and reply equal the poll step |
| BoundedWorkers.BoundedWorker.Invalidate | hsl_core/hsl_core/perception/bounded_worker.py:97-100 | everything submitted so far belongs to an older generation |
| BoundedWorkers.BoundedWorker.Close | hsl_core/hsl_core/perception/bounded_worker.py:150-157 | a task that has not started is cancelled and the worker refuses submissions |

## Left out

- Floating point: rounding, `nextafter`, the 1e-12 tolerances, finiteness and overflow checks; all arithmetic is exact.
- Locks and threads of the stage manager: an operation is one atomic step.
- Argument validation by type, string format and hash pattern; identifiers are natural numbers, and zones carry only the fields the lifecycle reads.
- The stage id factory: the new id is a parameter whose reuse the model refuses as the source does.
- Journal records keep sequence, time, operation, subject, stage, phase, outcome and reason; their copied request fields are not modelled.
- Map and topology versions of a match state are passed through by the source and are not modelled.
- CaptureSearch.SearchIsComplete: bearing, line of sight and the swept-envelope and bearing-rate tests of certification are arbitrary predicates, so nothing is said of their trigonometry.
- CaptureSearch.CertifiedDistances: a certified interval is shown to stay within the distance limit, not the bearing limit, because the bearing-rate test is an arbitrary predicate.
- Capture and arrival predicates outside the bisection (robust intervals, contour and footprint arrival).
- Safety.FailClosed: reports the causes of a stop but not the source's textual reasons; timing budgets are given in nanoseconds.
- The constructor checks of safety snapshots: the safety results hold for any field values, so they are not modelled; those of limits and stage profiles are the predicates `ValidLimits` and `ValidProfile`.
- Obstacle inflation, the clearance transform and the metric coordinates of nodes and polylines: the free cells and the clearances are given.
- The normalised Laplacian and its eigenvalues.
- OptionValues.ValuesStayBounded: bounds runs whose transitions have no terminal impulse; feature schemas, state validation and the eta schedule id are not modelled.
- Episode.RunEpisode: plants, policies, sensors, collisions and telemetry are the environment; the referee gives each step a capture interval inside that step, and stamps within the lease of the 63-bit limit may stop the clock.
- RouteCaches.PolicyNeverNotices: Dijkstra trees and path clipping are functions of their arguments, and the paths of a tree lead along edges of its graph from the start; frames refused for other reasons than their stamp ask nothing.
- BoundedWorkers.CompletedIsFresh: payloads and exception texts are reduced to an outcome; clock values are finite.
- Tactical options, policy selection, planning search, learning schedules, scenario files, visualisation and command-line tools.
