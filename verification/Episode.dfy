/** A benchmark episode: two role-scoped stage managers are driven through
    control steps until a capture or the deadline.  Plants, policies and sensors
    are the environment, which decides each step's referee result. */
module Episode {
  import opened Adjudication
  import opened Lockstep
  import opened Options
  import opened StageInvariant
  import opened StageManagers
  import opened StageModel

  const FREEZE: nat := 150_000_000
  const LEASE: nat := 500_000_000

  datatype Config = Config(duration: nat, period: nat, maxSteps: nat)

  /** Least number of periods that cover the duration. */
  function StepsToDeadline(c: Config): nat
    requires c.period > 0
  {
    (c.duration + c.period - 1) / c.period
  }

  /** What the configuration check accepts. */
  predicate Configured(c: Config) {
    c.duration > FREEZE && c.period > 0 && c.maxSteps >= StepsToDeadline(c) + 1
  }

  /** Stamp after k control steps; the last step is cut at the deadline. */
  function Stamp(c: Config, k: nat): nat {
    if k == 0 then 0
    else var before := Stamp(c, k - 1); if before + c.period <= c.duration then before + c.period else c.duration
  }

  /** The referee's finding for one step: a capture interval, and whether both
      commands were straight. */
  datatype Finding = Finding(capture: Option<(nat, nat)>, straight: bool)

  /** A step's capture interval is proper and lies inside the step. */
  ghost predicate Referee(c: Config, world: nat -> Finding) {
    forall k: nat :: world(k).capture.Some? ==>
      Stamp(c, k) <= world(k).capture.value.0 <= world(k).capture.value.1 <= Stamp(c, k + 1)
  }

  /** A capture that ends the episode: straight motion, inside the active window. */
  predicate Captures(c: Config, world: nat -> Finding, k: nat) {
    && world(k).straight && world(k).capture.Some?
    && FREEZE <= world(k).capture.value.0 && world(k).capture.value.1 < c.duration
  }

  datatype Names = Names(
    stage: Id, clock: Id, localization: Id, organizer: Id, frame: Id, fixture: Id, event: nat -> Id)

  function ProfileOf(c: Config, n: Names): Profile {
    Profile(FREEZE, c.duration, LEASE, FREEZE, 16, 16, 64, n.clock, n.localization, n.organizer,
            {n.organizer}, {n.frame}, {}, true)
  }

  /** The two inputs of a synthetic capture: the fixture's referee and the scan pair of
      the stamp, the former named by even and the latter by odd ids. */
  function CaptureInputs(n: Names, stamp: nat): (inputs: seq<Id>)
    ensures inputs != [] && Distinct(inputs)
  {
    [2 * n.fixture, 2 * stamp + 1]
  }

  function CaptureEvent(c: Config, n: Names, world: nat -> Finding, k: nat): RuleEvent
    requires world(k).capture.Some? && world(k).capture.value.0 <= world(k).capture.value.1
  {
    Event(n.event(Stamp(c, k + 1)), n.stage, n.clock, n.localization, Capture, SimTruth, True,
          world(k).capture.value.0, world(k).capture.value.1, CaptureInputs(n, Stamp(c, k + 1)), n.organizer, 0, 0)
  }

  datatype Outcome =
    | Ended(kind: TerminalKind, stamp: nat)
    | Exhausted
    | Diverged
    | NotTerminal
    | CaptureRejected
    | NotStarted
    | ClockOverflow

  // --------------------------------------------------------- shared snapshots

  /** The coherence two role snapshots must show. */
  predicate Coherent(g: MatchState, e: MatchState) {
    && g.role == Guardian && e.role == Explorer
    && g.stageId == e.stageId && g.clockEpoch == e.clockEpoch && g.localizationEpoch == e.localizationEpoch
    && g.phase == e.phase && g.started == e.started && g.freezeEnd == e.freezeEnd && g.stageEnd == e.stageEnd
    && g.hold == e.hold && g.terminalKind == e.terminalKind
  }

  datatype Joint = Both(guardian: MatchState, explorer: MatchState) | Overflowed | Incoherent

  function Join(g: Reply, e: Reply): Joint {
    if !g.Snapshot? || !e.Snapshot? then Overflowed
    else if Coherent(g.state, e.state) then Both(g.state, e.state) else Incoherent
  }

  /** The terminal kind two snapshots share; no kind while the stage may go on. */
  function SharedKind(g: MatchState, e: MatchState, stamp: nat, allowActive: bool): Outcome {
    if g.phase != e.phase || g.role != Guardian || e.role != Explorer then Diverged
    else if (g.phase.Freeze? || g.phase.Active?) && allowActive then Ended(NoKind, stamp)
    else if !g.phase.Terminal? then NotTerminal
    else if g.terminalKind != e.terminalKind then Diverged
    else Ended(g.terminalKind, stamp)
  }

  function JointKind(j: Joint, stamp: nat): Outcome {
    match j
    case Both(g, e) => SharedKind(g, e, stamp, true)
    case Overflowed => ClockOverflow
    case Incoherent => Diverged
  }

  // ------------------------------------------------------- the running stage

  /** A manager between two steps of an episode that has not ended. */
  ghost predicate Running(s: State, c: Config, n: Names, stamp: nat) {
    && s.profile == ProfileOf(c, n) && s.stageId == n.stage && s.lastNow == stamp
    && s.window == Window(0, FREEZE, c.duration) && s.latch == NO_RESULT && s.store == NO_EVENTS
    && s.phase == (if stamp < FREEZE then Freeze else Active)
    && !s.reset.pending && !s.epoch.pending
  }

  ghost predicate Duel(g: State, e: State, c: Config, n: Names, stamp: nat) {
    InStep(g, e) && Running(g, c, n, stamp) && g.role == Guardian && e.role == Explorer
  }

  /** A finished manager: the latched kind and nothing pending. */
  ghost predicate Finished(s: State, kind: TerminalKind) {
    s.phase.Terminal? && s.latch.kind == kind && !s.latch.hold && s.store.pending == []
  }

  /** What one snapshot does to a running manager. */
  ghost predicate Observed(s: State, r: Reply, c: Config, n: Names, now: nat) {
    && (r.Snapshot? <==> now + LEASE <= MAX_STAMP)
    && (r.Snapshot? ==> r.state.phase == s.phase && r.state.terminalKind == s.latch.kind)
    && (now < c.duration ==> Running(s, c, n, now))
    && (now >= c.duration ==> Finished(s, Timeout))
  }

  lemma SnapshotRunning(s: State, c: Config, n: Names, stamp: nat, now: nat)
    requires Running(s, c, n, stamp) && stamp <= now && stamp < c.duration && c.duration > FREEZE
    ensures Observed(TakeSnapshot(s, now).0, TakeSnapshot(s, now).1, c, n, now)
  {
    hide Append;
  }

  lemma SnapshotRole(s: State, now: nat)
    ensures TakeSnapshot(s, now).1.Snapshot? ==> TakeSnapshot(s, now).1.state.role == s.role
  {
    AdvanceCore(s, now);
    hide Advance;
  }

  lemma JoinUnroled(g: Reply, e: Reply, stamp: nat)
    requires Unroled(g) == Unroled(e)
    requires g.Snapshot? ==> g.state.role == Guardian
    requires e.Snapshot? ==> e.state.role == Explorer
    ensures Join(g, e) == if g.Snapshot? then Both(g.state, e.state) else Overflowed
    ensures g.Snapshot? && !g.state.phase.Init? ==>
              var kind := if g.state.phase.Terminal? then g.state.terminalKind else NoKind;
              JointKind(Join(g, e), stamp) == Ended(kind, stamp)
  {
    if g.Snapshot? {
      var m := g.state.(role := Explorer);
      assert e.Snapshot? && m == e.state.(role := Explorer);
      assert m.phase == g.state.phase && m.terminalKind == g.state.terminalKind && m.hold == g.state.hold;
    }
  }

  /** Snapshots of both managers agree, and both reach the deadline together. */
  ghost predicate Together(g: State, e: State, j: Joint, c: Config, n: Names, now: nat) {
    && (j.Both? <==> now + LEASE <= MAX_STAMP) && !j.Incoherent?
    && (now < c.duration ==> Duel(g, e, c, n, now))
    && (now >= c.duration ==> Finished(g, Timeout) && Finished(e, Timeout) && InStep(g, e))
    && JointKind(j, now) == if j.Both? then Ended(if now < c.duration then NoKind else Timeout, now) else ClockOverflow
  }

  lemma SnapshotDuel(g: State, e: State, c: Config, n: Names, stamp: nat, now: nat)
    requires Duel(g, e, c, n, stamp) && stamp <= now && stamp < c.duration && c.duration > FREEZE
    ensures Together(TakeSnapshot(g, now).0, TakeSnapshot(e, now).0,
                     Join(TakeSnapshot(g, now).1, TakeSnapshot(e, now).1), c, n, now)
  {
    hide TakeSnapshot;
    SnapshotRunning(g, c, n, stamp, now);
    SnapshotTogether(g, e, now);
    SnapshotRole(g, now);
    SnapshotRole(e, now);
    var (g', gr) := TakeSnapshot(g, now);
    var (e', er) := TakeSnapshot(e, now);
    CoreFields(g', e');
    hide InStep;
    JoinUnroled(gr, er, now);
    hide Join, JointKind, Unroled, Running, Finished;
  }

  lemma CoreFields(s: State, t: State)
    requires InStep(s, t)
    ensures s.phase == t.phase && s.latch == t.latch && s.store == t.store && s.stageId == t.stageId
    ensures s.lastNow == t.lastNow && s.profile == t.profile
  {
    assert Core(s).phase == Core(t).phase && Core(s).latch == Core(t).latch && Core(s).store == Core(t).store;
  }

  // ------------------------------------------------------------- the capture

  /** A capture inside the active window, dated no later than now, is accepted and
      ends the stage with that result. */
  lemma CaptureAccepted(s: State, c: Config, n: Names, stamp: nat, event: RuleEvent, now: nat)
    requires Running(s, c, n, stamp) && stamp <= now <= c.duration && c.duration > FREEZE
    requires event.kind == Capture && event.evidence.SimTruth? && event.truth.True?
    requires event.stageId == n.stage && event.clockEpoch == n.clock && event.localizationEpoch == n.localization
    requires event.authorization == n.organizer && FREEZE <= event.lower && event.upper < c.duration
    requires event.upper <= now
    ensures var (t, r) := ResolveEvent(s, event, now);
            r == Answer(RequestResult(true, EventRecorded, n.stage)) && Finished(t, Capture)
  {
    hide Append, Adjudicate;
    var t := OpenStage(s, now);
    assert EventRefusal(s, event, now) == None && KindRefusal(t, event) == None;
    assert t.stageId == n.stage && t.store == NO_EVENTS;
    CaptureLatches(t, event, now);
    hide OpenStage, EventRefusal, KindRefusal, LatchEvent;
  }

  lemma CaptureLatches(t: State, event: RuleEvent, now: nat)
    requires t.store == NO_EVENTS && event.kind == Capture && event.evidence.SimTruth?
    ensures var (u, result) := LatchEvent(t, event, now);
            result == Accept(t, EventRecorded) && Finished(u, Capture) && u.stageId == t.stageId
  {
    OneEvent(event);
    assert [] + [event] == [event];
    hide Adjudicate;
  }

  lemma OneEvent(event: RuleEvent)
    requires event.kind == Capture && !event.evidence.Estimate?
    ensures Adjudicate([event], []).Decided? && Adjudicate([event], []).kind == Capture
  {
    assert [event] + [] == [event];
    AmbiguousIffRivals([event], []);
    VerdictNeverInventsOrder([event], [], (x: RuleEvent) => x.lower, event);
  }

  // ------------------------------------------------------------ step budget

  lemma {:induction false} StampIs(c: Config, k: nat)
    requires c.period > 0
    ensures Stamp(c, k) == if k * c.period <= c.duration then k * c.period else c.duration
  {
    if k > 0 {
      StampIs(c, k - 1);
      assert k * c.period == (k - 1) * c.period + c.period;
    }
  }

  lemma ScaleNat(a: int, b: int, p: nat)
    requires a <= b
    ensures a * p <= b * p
  {
    assert (b - a) * p >= 0;
  }

  lemma RoundedUp(d: nat, p: nat, k: nat)
    requires p > 0
    ensures k * p >= d <==> k >= (d + p - 1) / p
  {
    var q := (d + p - 1) / p;
    assert q * p <= d + p - 1 < q * p + p;
    if k >= q { ScaleNat(q, k, p); } else { ScaleNat(k, q - 1, p); }
  }

  /** The deadline is reached after exactly the computed number of steps. */
  lemma DeadlineAfter(c: Config, k: nat)
    requires c.period > 0
    ensures Stamp(c, k) >= c.duration <==> k >= StepsToDeadline(c)
    ensures Stamp(c, k) <= c.duration
  {
    StampIs(c, k);
    RoundedUp(c.duration, c.period, k);
  }

  // ------------------------------------------------------------- the episode

  function StartOf(n: Names): Request { StartRequest(n.stage, 0, n.organizer) }

  lemma StartsRunning(c: Config, n: Names, role: Role, id: Id)
    requires c.duration > FREEZE
    ensures var (s, r) := StageModel.StartStage(Initial(ProfileOf(c, n), n.stage, 1, role), id, StartOf(n), 0);
            && r.Answer? && (r.result.accepted <==> c.duration <= MAX_STAMP)
            && (r.result.accepted ==> Running(s, c, n, 0)) && s.role == role
  {
    hide Append;
  }

  /** Both managers start alike, although their requests carry different ids. */
  lemma StartsInStep(c: Config, n: Names, gid: Id, eid: Id)
    requires c.duration > FREEZE
    ensures InStep(StageModel.StartStage(Initial(ProfileOf(c, n), n.stage, 1, Guardian), gid, StartOf(n), 0).0,
                   StageModel.StartStage(Initial(ProfileOf(c, n), n.stage, 1, Explorer), eid, StartOf(n), 0).0)
  {
    StartTogether(Initial(ProfileOf(c, n), n.stage, 1, Guardian), Initial(ProfileOf(c, n), n.stage, 1, Explorer),
                  gid, eid, StartOf(n), 0);
  }

  predicate Agreed(r: Reply) { r.Answer? && r.result.accepted }

  /** No step before k ended with a capture. */
  predicate Uncaptured(c: Config, world: nat -> Finding, k: nat) {
    forall j: nat :: j < k ==> !Captures(c, world, j)
  }

  /** The first step that captures ended the episode at its stamp. */
  ghost predicate CapturedAt(c: Config, world: nat -> Finding, outcome: Outcome)
    requires outcome.Ended?
  {
    outcome.kind == Capture && exists k: nat :: EndsAt(c, world, k, outcome.stamp)
  }

  predicate EndsAt(c: Config, world: nat -> Finding, k: nat, stamp: nat) {
    k < c.maxSteps && Captures(c, world, k) && Uncaptured(c, world, k) && stamp == Stamp(c, k + 1)
  }

  /** The deadline came within the budget and no step up to it captured. */
  predicate TimedOut(c: Config, world: nat -> Finding, outcome: Outcome)
    requires outcome.Ended? && c.period > 0
  {
    && outcome.kind == Timeout && outcome.stamp == c.duration
    && StepsToDeadline(c) <= c.maxSteps && Uncaptured(c, world, StepsToDeadline(c))
  }

  /** Builds and starts both managers. */
  method StartBoth(c: Config, n: Names, gid: Id, eid: Id)
    returns (guardian: StageManager, explorer: StageManager, started: bool)
    requires c.duration > FREEZE
    ensures fresh(guardian) && fresh(explorer) && guardian != explorer && guardian.Valid() && explorer.Valid()
    ensures started <==> c.duration <= MAX_STAMP
    ensures started ==> Duel(guardian.Abs(), explorer.Abs(), c, n, 0)
  {
    hide StageModel.StartStage, Running, Inv, InStep;
    StartsRunning(c, n, Guardian, gid);
    StartsRunning(c, n, Explorer, eid);
    StartsInStep(c, n, gid, eid);
    guardian := new StageManager(ProfileOf(c, n), n.stage, 1, Guardian);
    explorer := new StageManager(ProfileOf(c, n), n.stage, 1, Explorer);
    var gr := guardian.StartStage(gid, StartOf(n), 0);
    var er := explorer.StartStage(eid, StartOf(n), 0);
    started := Agreed(gr) && Agreed(er);
  }

  /** Snapshots of both managers at one stamp. */
  method ObserveBoth(guardian: StageManager, explorer: StageManager, c: Config, n: Names, stamp: nat, now: nat)
    returns (joint: Joint)
    requires guardian != explorer && guardian.Valid() && explorer.Valid()
    requires Duel(guardian.Abs(), explorer.Abs(), c, n, stamp) && stamp <= now && stamp < c.duration
    requires c.duration > FREEZE
    modifies guardian, explorer
    ensures guardian.Valid() && explorer.Valid()
    ensures Together(guardian.Abs(), explorer.Abs(), joint, c, n, now)
  {
    hide TakeSnapshot, Running, Finished, Inv, InStep, Join, JointKind, Together;
    SnapshotDuel(guardian.Abs(), explorer.Abs(), c, n, stamp, now);
    var gr := guardian.Snapshot(now);
    var er := explorer.Snapshot(now);
    joint := Join(gr, er);
  }

  /** Both managers resolve the referee's capture. */
  method CaptureBoth(guardian: StageManager, explorer: StageManager, c: Config, n: Names, stamp: nat,
                     event: RuleEvent, now: nat) returns (accepted: bool)
    requires guardian != explorer && guardian.Valid() && explorer.Valid()
    requires Duel(guardian.Abs(), explorer.Abs(), c, n, stamp) && stamp <= now <= c.duration && c.duration > FREEZE
    requires event.kind == Capture && event.evidence.SimTruth? && event.truth.True?
    requires event.stageId == n.stage && event.clockEpoch == n.clock && event.localizationEpoch == n.localization
    requires event.authorization == n.organizer && FREEZE <= event.lower && event.upper < c.duration
    requires event.upper <= now
    modifies guardian, explorer
    ensures guardian.Valid() && explorer.Valid()
    ensures accepted && Finished(guardian.Abs(), Capture) && Finished(explorer.Abs(), Capture)
  {
    hide StageModel.ResolveEvent, Running, Inv, InStep;
    CaptureAccepted(guardian.Abs(), c, n, stamp, event, now);
    EventTogether(guardian.Abs(), explorer.Abs(), event, now);
    var gr := guardian.ResolveEvent(event, now);
    var er := explorer.ResolveEvent(event, now);
    CoreFields(guardian.Abs(), explorer.Abs());
    accepted := Agreed(gr) && Agreed(er);
  }

  /** Runs one episode.  The managers never diverge, a capture inside the active
      window always ends the episode at its step, and otherwise the deadline does,
      provided the budget covers the steps to the deadline; only timestamps close to
      the end of their range can stop the clock. */
  method RunEpisode(c: Config, n: Names, world: nat -> Finding, gid: Id, eid: Id) returns (outcome: Outcome)
    requires c.duration > FREEZE && c.period > 0 && Referee(c, world)
    ensures !outcome.Diverged? && !outcome.NotTerminal? && !outcome.CaptureRejected?
    ensures outcome.NotStarted? <==> c.duration > MAX_STAMP
    ensures outcome.ClockOverflow? ==> c.duration + LEASE > MAX_STAMP
    ensures outcome.Exhausted? ==> c.maxSteps < StepsToDeadline(c) && Uncaptured(c, world, c.maxSteps)
    ensures outcome.Ended? ==> CapturedAt(c, world, outcome) || TimedOut(c, world, outcome)
    ensures Configured(c) && c.duration + LEASE <= MAX_STAMP ==> outcome.Ended?
  {
    hide Duel, Finished, InStep, Inv, JointKind, Captures, Stamp, StepsToDeadline, Referee;
    DeadlineAfter(c, 0);
    DeadlineAfter(c, c.maxSteps);
    var guardian, explorer, started := StartBoth(c, n, gid, eid);
    if !started { return NotStarted; }
    var stamp: nat := 0;
    StampIs(c, 0);
    for k := 0 to c.maxSteps
      invariant fresh(guardian) && fresh(explorer) && guardian != explorer
      invariant guardian.Valid() && explorer.Valid()
      invariant Duel(guardian.Abs(), explorer.Abs(), c, n, stamp)
      invariant stamp == Stamp(c, k) < c.duration && Uncaptured(c, world, k)
    {
      StampStep(c, k);
      DeadlineAfter(c, k);
      DeadlineAfter(c, k + 1);
      // The step left before the deadline, which is never zero here.
      var end := if c.duration - stamp < c.period then c.duration else stamp + c.period;
      var joint := ObserveBoth(guardian, explorer, c, n, stamp, stamp);
      if !joint.Both? { return JointKind(joint, stamp); }
      if Captures(c, world, k) {
        var event := CaptureOf(c, n, world, k);
        var accepted := CaptureBoth(guardian, explorer, c, n, stamp, event, end);
        assert EndsAt(c, world, k, end);
        return if accepted then Ended(Capture, end) else CaptureRejected;
      }
      joint := ObserveBoth(guardian, explorer, c, n, stamp, end);
      var kind := JointKind(joint, end);
      if kind != Ended(NoKind, end) { return kind; }
      stamp := end;
    }
    return Exhausted;
  }

  lemma StampStep(c: Config, k: nat)
    requires c.period > 0 && Stamp(c, k) < c.duration
    ensures Stamp(c, k + 1) == if c.duration - Stamp(c, k) < c.period then c.duration else Stamp(c, k) + c.period
    ensures Stamp(c, k) < Stamp(c, k + 1) <= c.duration
  {
  }

  /** The rule event made of a step's capture. */
  method CaptureOf(c: Config, n: Names, world: nat -> Finding, k: nat) returns (event: RuleEvent)
    requires Captures(c, world, k) && Referee(c, world)
    ensures event == CaptureEvent(c, n, world, k)
    ensures FREEZE <= event.lower && event.upper < c.duration && event.upper <= Stamp(c, k + 1)
  {
    event := CaptureEvent(c, n, world, k);
  }
}
