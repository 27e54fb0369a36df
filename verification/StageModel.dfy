/** The stage lifecycle as a transition function: every public operation of the
    stage manager maps a state to a new state and a reply.  The class in
    StageManager.dfy performs the same operations by updating its fields. */
module StageModel {
  import opened Adjudication
  import opened Options

  datatype Phase = Init | Freeze | Active | Terminal

  datatype Role = Explorer | Guardian

  datatype ZonePurpose = OwnStart | Target

  datatype ZoneStatus = Unresolved | Candidate | Accepted | Invalid

  datatype GoalZone = GoalZone(
    zoneId: Id, purpose: ZonePurpose, status: ZoneStatus, frameId: Id, approvalRef: Id, provenance: Id)

  datatype Resolution = DismissEstimate | ConfirmOfficial | SetOfficialTerminal

  datatype Effect = Actions | Execution | Plans | Candidates | Tracks | Memory | MapLayer | World

  const RESET_ACKS: set<Effect> := {Actions, Execution, Plans, Candidates, Tracks, Memory}
  const EPOCH_ACKS: set<Effect> := {Actions, Plans, Candidates, Tracks, MapLayer, World}
  const MAX_STAMP: nat := 0x7FFF_FFFF_FFFF_FFFF
  const CONFIRMED_NOTE: Id := 1

  datatype Profile = Profile(
    freezeDuration: nat, stageDuration: nat, leaseDuration: nat, zoneWindow: nat,
    maxRequests: nat, maxEvents: nat, maxAudit: nat,
    clockEpoch: Id, localizationEpoch: Id, organizer: Id,
    approvedRefs: set<Id>, approvedFrames: set<Id>, approvedMemory: set<Id>, allowSimTruth: bool)

  predicate ValidProfile(p: Profile) {
    && 0 < p.freezeDuration < p.stageDuration
    && 0 < p.leaseDuration
    && p.zoneWindow <= p.freezeDuration
    && 0 < p.maxRequests && 0 < p.maxEvents && 0 < p.maxAudit
    && p.organizer in p.approvedRefs
  }

  datatype Reason =
    | FreezeElapsed | FreezeElapsedBeforeAdjudication | DeadlineReached
    | CapacityExhausted | PayloadMismatch | StaleStage | NotInInit | EffectsNotAcknowledged
    | NotAuthorized | StampInvalid | DeadlineOverflow | StartLatched
    | ZonesClosed | ZoneWindowClosed | ZoneApprovalUnknown | ZoneFrameUnknown | ZoneRecorded
    | DuplicateEvent | StaleClock | StaleLocalization | PredicateNotTrue | OutsideStage | PrecedesActive
    | TimeInFuture | IntervalInFuture | TargetUnresolved | ZoneMismatch | EstimatedAbort
    | EstimateAfterTerminal | OverlapsDeadline | LocalHold | RetainedEstimate
    | SimTruthDisabled | NotBeforeDeadline | EventRecorded
    | AlreadyLatched | EvidenceRequired | KindNeedsEvidence | TimeoutTooEarly | TerminalLatched
    | EstimateNotHeld | EstimateDismissed | ConflictingEstimate | KindMismatch | EstimateConfirmed
    | ResetPhase | MemoryNotApproved | FactoryReusedId | ResetPending
    | EffectsPending | EffectsAcknowledged | LocalizationChanged | ClockChanged

  datatype RequestResult = RequestResult(
    accepted: bool, reason: Reason, stageId: Id,
    effects: set<Effect> := {}, memoryProfile: Option<Id> := None)

  datatype Request =
    | StartRequest(expected: Id, stamp: int, authorization: Id)
    | ZoneRequest(expected: Id, zone: GoalZone, authorization: Id)
    | ResolveRequest(expected: Id, eventId: Id, resolution: Resolution, kind: TerminalKind, authorization: Id)
    | ResetRequest(expected: Id, stageNumber: int, role: Role, memoryProfile: Option<Id>, authorization: Id)

  datatype Operation = StartOp | ZoneOp | ResolveOp | ResetOp

  function OperationOf(r: Request): Operation {
    match r
    case StartRequest(_, _, _) => StartOp
    case ZoneRequest(_, _, _) => ZoneOp
    case ResolveRequest(_, _, _, _, _) => ResolveOp
    case ResetRequest(_, _, _, _, _) => ResetOp
  }

  datatype OperationRecord = OperationRecord(request: Request, result: RequestResult)

  datatype AuditOp =
    | PhaseTransition | DeadlineTransition | Requested(op: Operation) | RuleEventOp
    | ResetAck | LocalizationChange | LocalizationAck | ClockChange

  datatype AuditRecord = AuditRecord(
    sequence: nat, time: nat, operation: AuditOp, subject: Option<Id>, stageId: Id,
    phase: Phase, accepted: bool, reason: Reason)

  /** The bounded audit deque with its two counters. */
  datatype Journal = Journal(records: seq<AuditRecord>, issued: nat, dropped: nat)

  function Append(j: Journal, r: AuditRecord, capacity: nat): Journal {
    if |j.records| == capacity && capacity > 0
    then Journal(j.records[1..] + [r], j.issued + 1, j.dropped + 1)
    else Journal(j.records + [r], j.issued + 1, j.dropped)
  }

  /** The stage clock: freeze and deadline stamps of the running stage. */
  datatype Window = Window(started: nat, freezeEnd: nat, stageEnd: nat)

  /** Event store: latched official events, pending estimates in arrival order,
      and every accepted event by id. */
  datatype Store = Store(official: seq<RuleEvent>, pending: seq<RuleEvent>, ids: map<Id, RuleEvent>)

  /** The result in force: local hold, the single held estimate, and the latch. */
  datatype Latch = Latch(hold: bool, held: Option<RuleEvent>, kind: TerminalKind, evidence: Evidence)

  /** An acknowledgement barrier and the effects acknowledged so far. */
  datatype Barrier = Barrier(pending: bool, acks: set<Effect>)

  datatype State = State(
    profile: Profile, stageId: Id, stageNumber: nat, role: Role,
    phase: Phase, window: Window, latch: Latch, store: Store,
    zones: map<ZonePurpose, GoalZone>, lastNow: nat, snapshots: nat,
    reset: Barrier, epoch: Barrier,
    operations: map<(Operation, Id), OperationRecord>, usedStageIds: set<Id>, journal: Journal)

  const NO_WINDOW := Window(0, 0, 0)
  const NO_EVENTS := Store([], [], map[])
  const NO_RESULT := Latch(false, None, NoKind, Estimate)

  datatype Failure =
    TimeRegression | LeaseOverflow | BadStageNumber | UnknownAcknowledgement | EpochUnchanged | StageIdReused

  datatype MatchState = MatchState(
    seqNo: nat, stageId: Id, clockEpoch: Id, localizationEpoch: Id, stamp: nat, validUntil: nat,
    stageNumber: nat, role: Role, phase: Phase, started: nat, freezeEnd: nat, stageEnd: nat,
    motionAuthorized: bool, hold: bool, terminalKind: TerminalKind, terminalEvidence: Evidence,
    ownZone: Option<Id>, targetZone: Option<Id>)

  datatype Reply =
    | Answer(result: RequestResult)
    | Acknowledged(complete: bool)
    | Snapshot(state: MatchState)
    | Raised(failure: Failure)

  function Initial(p: Profile, stageId: Id, stageNumber: nat, role: Role): State {
    State(p, stageId, stageNumber, role, Init, NO_WINDOW, NO_RESULT, NO_EVENTS, map[], 0, 0,
          Barrier(false, {}), Barrier(false, {}), map[], {stageId}, Journal([], 0, 0))
  }

  // --------------------------------------------------------- bookkeeping

  function Log(s: State, op: AuditOp, subject: Option<Id>, accepted: bool, reason: Reason): State {
    s.(journal := Append(s.journal,
         AuditRecord(s.journal.issued + 1, s.lastNow, op, subject, s.stageId, s.phase, accepted, reason),
         s.profile.maxAudit))
  }

  function Reject(s: State, reason: Reason): RequestResult { RequestResult(false, reason, s.stageId) }

  function Accept(s: State, reason: Reason): RequestResult { RequestResult(true, reason, s.stageId) }

  function TimeOut(s: State): State {
    if s.phase.Terminal? then s
    else
      Log(s.(phase := Terminal, latch := Latch(false, None, Timeout, Estimate)),
          DeadlineTransition, None, true, DeadlineReached)
  }

  /** The clock moves to `now`; freeze and deadline transitions fire. */
  function Advance(s: State, now: nat): State {
    var t := s.(lastNow := now);
    if t.phase.Freeze? then
      if now >= t.window.stageEnd then TimeOut(t)
      else if now >= t.window.freezeEnd then Log(t.(phase := Active), PhaseTransition, None, true, FreezeElapsed)
      else t
    else if t.phase.Active? && now >= t.window.stageEnd then TimeOut(t)
    else t
  }

  datatype Admission =
    | Refused(failure: Failure)
    | Settled(state: State, result: RequestResult)
    | Fresh(state: State)

  /** Clock advance and replay cache in front of every keyed request. */
  function Admit(s: State, id: Id, request: Request, now: nat): Admission {
    if now < s.lastNow then Refused(TimeRegression)
    else
      var t := Advance(s, now);
      var key := (OperationOf(request), id);
      if key !in t.operations then
        if |t.operations| >= t.profile.maxRequests then
          Settled(Log(t, Requested(key.0), Some(id), false, CapacityExhausted), Reject(t, CapacityExhausted))
        else Fresh(t)
      else if t.operations[key].request != request then
        Settled(Log(t, Requested(key.0), Some(id), false, PayloadMismatch), Reject(t, PayloadMismatch))
      else Settled(t, t.operations[key].result)
  }

  function Remember(s: State, id: Id, request: Request, result: RequestResult): State {
    var op := OperationOf(request);
    Log(s.(operations := s.operations[(op, id) := OperationRecord(request, result)]),
        Requested(op), Some(id), result.accepted, result.reason)
  }

  predicate BarrierUp(s: State) { s.reset.pending || s.epoch.pending }

  // --------------------------------------------------------- start and zones

  function StartBody(s: State, r: Request, now: nat): (State, RequestResult)
    requires r.StartRequest?
  {
    if r.expected != s.stageId then (s, Reject(s, StaleStage))
    else if !s.phase.Init? then (s, Reject(s, NotInInit))
    else if BarrierUp(s) then (s, Reject(s, EffectsNotAcknowledged))
    else if r.authorization != s.profile.organizer then (s, Reject(s, NotAuthorized))
    else if r.stamp < 0 || r.stamp > now then (s, Reject(s, StampInvalid))
    else
      var end, freezeEnd := r.stamp + s.profile.stageDuration, r.stamp + s.profile.freezeDuration;
      if end > MAX_STAMP || freezeEnd > MAX_STAMP then (s, Reject(s, DeadlineOverflow))
      else
        (s.(window := Window(r.stamp, freezeEnd, end), phase := Freeze, latch := NO_RESULT, store := NO_EVENTS),
         Accept(s, StartLatched))
  }

  function StartStage(s: State, id: Id, r: Request, now: nat): (State, Reply)
    requires r.StartRequest?
  {
    match Admit(s, id, r, now)
    case Refused(f) => (s, Raised(f))
    case Settled(t, result) => (t, Answer(result))
    case Fresh(t) =>
      var (u, result) := StartBody(t, r, now);
      var v := Remember(u, id, r, result);
      (if result.accepted then Advance(v, now) else v, Answer(result))
  }

  function ZoneBody(s: State, r: Request, now: nat): (State, RequestResult)
    requires r.ZoneRequest?
  {
    if r.expected != s.stageId then (s, Reject(s, StaleStage))
    else if BarrierUp(s) then (s, Reject(s, EffectsNotAcknowledged))
    else if !s.phase.Init? && !s.phase.Freeze? then (s, Reject(s, ZonesClosed))
    else if s.phase.Freeze? && now > s.window.started + s.profile.zoneWindow then (s, Reject(s, ZoneWindowClosed))
    else if r.authorization != s.profile.organizer then (s, Reject(s, NotAuthorized))
    else if r.zone.status.Accepted? && r.zone.approvalRef !in s.profile.approvedRefs then
      (s, Reject(s, ZoneApprovalUnknown))
    else if r.zone.status.Accepted? && r.zone.frameId !in s.profile.approvedFrames then
      (s, Reject(s, ZoneFrameUnknown))
    else (s.(zones := s.zones[r.zone.purpose := r.zone]), Accept(s, ZoneRecorded))
  }

  function SetGoalZone(s: State, id: Id, r: Request, now: nat): (State, Reply)
    requires r.ZoneRequest?
  {
    match Admit(s, id, r, now)
    case Refused(f) => (s, Raised(f))
    case Settled(t, result) => (t, Answer(result))
    case Fresh(t) =>
      var (u, result) := ZoneBody(t, r, now);
      (Remember(u, id, r, result), Answer(result))
  }

  // --------------------------------------------------------- adjudication

  /** Re-adjudicate everything known and latch the verdict. */
  function Relatch(phase: Phase, latch: Latch, store: Store): (Phase, Latch) {
    match Adjudicate(store.official, store.pending)
    case Decided(kind, evidence) => (Terminal, Latch(kind == Ambiguous, None, kind, evidence))
    case Contested =>
      if phase.Active? then (phase, latch.(hold := true, held := None, kind := NoKind))
      else (phase, latch.(held := None))
    case Open =>
      if phase.Terminal? then (phase, latch)
      else (phase, latch.(hold := store.pending != [], held := OnlyOne(store.pending), kind := NoKind))
  }

  function OnlyOne(pending: seq<RuleEvent>): Option<RuleEvent> {
    if |pending| == 1 then Some(pending[0]) else None
  }

  function Terminalize(s: State): State {
    var (phase, latch) := Relatch(s.phase, s.latch, s.store);
    s.(phase := phase, latch := latch)
  }

  /** The checks that refuse an event before any state changes. */
  function EventRefusal(s: State, e: RuleEvent, now: nat): Option<Reason> {
    if e.stageId != s.stageId then Some(StaleStage)
    else if e.clockEpoch != s.profile.clockEpoch then Some(StaleClock)
    else if e.localizationEpoch != s.profile.localizationEpoch then Some(StaleLocalization)
    else if !e.truth.True? then Some(PredicateNotTrue)
    else if s.phase.Init? then Some(OutsideStage)
    else if e.lower < s.window.freezeEnd then Some(PrecedesActive)
    else if e.lower > now then Some(TimeInFuture)
    else if e.upper > now then Some(IntervalInFuture)
    else None
  }

  /** An event interval proves the freeze has elapsed. */
  function OpenStage(s: State, now: nat): State {
    if s.phase.Freeze? && s.window.freezeEnd <= now < s.window.stageEnd then
      Log(s.(phase := Active), PhaseTransition, None, true, FreezeElapsedBeforeAdjudication)
    else s
  }

  function KindRefusal(s: State, e: RuleEvent): Option<Reason> {
    if e.kind == Arrival && (Target !in s.zones || !s.zones[Target].status.Accepted?) then Some(TargetUnresolved)
    else if e.kind == Arrival && e.zoneId != s.zones[Target].zoneId then Some(ZoneMismatch)
    else if e.evidence.Estimate? then
      if e.kind == OfficialAbort then Some(EstimatedAbort)
      else if s.phase.Terminal? && s.latch.evidence.Official? then Some(EstimateAfterTerminal)
      else if e.upper >= s.window.stageEnd then Some(OverlapsDeadline)
      else None
    else if e.evidence.SimTruth? && !s.profile.allowSimTruth then Some(SimTruthDisabled)
    else if e.authorization != s.profile.organizer then Some(NotAuthorized)
    else if e.upper >= s.window.stageEnd then Some(NotBeforeDeadline)
    else None
  }

  function LatchEvent(s: State, e: RuleEvent, now: nat): (State, RequestResult) {
    if e.evidence.Estimate? then
      var localHold := s.phase.Active? && now < s.window.stageEnd;
      var pending := s.store.pending + [e];
      var latch := s.latch.(hold := s.latch.hold || localHold,
                            held := if localHold then OnlyOne(pending) else None);
      (Terminalize(s.(store := s.store.(pending := pending), latch := latch)),
       Accept(s, if localHold then LocalHold else RetainedEstimate))
    else
      (Terminalize(s.(store := s.store.(official := s.store.official + [e]))), Accept(s, EventRecorded))
  }

  function CheckEvent(s: State, e: RuleEvent, now: nat): (State, RequestResult) {
    match EventRefusal(s, e, now)
    case Some(reason) => (s, Reject(s, reason))
    case None =>
      var t := OpenStage(s, now);
      match KindRefusal(t, e)
      case Some(reason) => (t, Reject(t, reason))
      case None => LatchEvent(t, e, now)
  }

  function ResolveEvent(s: State, e: RuleEvent, now: nat): (State, Reply) {
    if now < s.lastNow then (s, Raised(TimeRegression))
    else if e.id in s.store.ids then
      var t := Advance(s, now);
      if s.store.ids[e.id] == e then (t, Answer(Accept(t, DuplicateEvent)))
      else (Log(t, RuleEventOp, Some(e.id), false, PayloadMismatch), Answer(Reject(t, PayloadMismatch)))
    else if |s.store.ids| >= s.profile.maxEvents then
      (Log(s, RuleEventOp, Some(e.id), false, CapacityExhausted), Answer(Reject(s, CapacityExhausted)))
    else
      var (t, result) := CheckEvent(s, e, now);
      var u := Advance(t, now);
      var v := if result.accepted then u.(store := u.store.(ids := u.store.ids[e.id := e])) else u;
      (Log(v, RuleEventOp, Some(e.id), result.accepted, result.reason), Answer(result))
  }

  // ---------------------------------------------------- organizer decisions

  function FindPending(pending: seq<RuleEvent>, id: Id): Option<RuleEvent> {
    if pending == [] then None
    else if pending[0].id == id then Some(pending[0])
    else FindPending(pending[1..], id)
  }

  function DropPending(pending: seq<RuleEvent>, id: Id): seq<RuleEvent> {
    if pending == [] then []
    else if pending[0].id == id then pending[1..]
    else [pending[0]] + DropPending(pending[1..], id)
  }

  function Dismissed(store: Store, id: Id): Store {
    store.(pending := DropPending(store.pending, id))
  }

  /** An estimate leaves the pending set and its official copy takes its id. */
  function Promoted(store: Store, c: RuleEvent): Store {
    Store(store.official + [c], DropPending(store.pending, c.id), store.ids[c.id := c])
  }

  function LatchDecision(s: State, kind: TerminalKind): State {
    s.(phase := Terminal, latch := Latch(kind == Ambiguous, None, kind, Official))
  }

  /** What refuses an official terminal decision. */
  function DecisionRefusal(s: State, eventId: Id, kind: TerminalKind, now: nat): Option<Reason> {
    if s.phase.Init? then Some(OutsideStage)
    else if s.phase.Terminal? && s.latch.evidence.Official? && s.latch.kind != Ambiguous then Some(AlreadyLatched)
    else if kind == Capture || kind == Arrival then
      if eventId !in s.store.ids then Some(EvidenceRequired)
      else
        var e := s.store.ids[eventId];
        if e.kind != kind || !e.evidence.Official? || !e.truth.True? || e.upper >= s.window.stageEnd
        then Some(EvidenceRequired) else None
    else if kind == NoKind then Some(KindNeedsEvidence)
    else if kind == Timeout && now < s.window.stageEnd then Some(TimeoutTooEarly)
    else if kind == OfficialAbort && s.phase.Terminal? && s.latch.evidence.Official? then Some(AlreadyLatched)
    else None
  }

  function Confirmed(s: State, e: RuleEvent, authorization: Id): RuleEvent {
    Event(e.id, s.stageId, s.profile.clockEpoch, s.profile.localizationEpoch, e.kind, Official, True,
          e.lower, e.upper, e.inputs, authorization, e.zoneId, CONFIRMED_NOTE)
  }

  function ConfirmRefusal(s: State, e: RuleEvent, kind: TerminalKind): Option<Reason> {
    if exists o :: o in s.store.pending && o.id != e.id && Rivals(o, e) then Some(ConflictingEstimate)
    else if kind != e.kind then Some(KindMismatch)
    else if e.upper >= s.window.stageEnd then Some(NotBeforeDeadline)
    else None
  }

  function ResolveBody(s: State, r: Request, now: nat): (State, RequestResult)
    requires r.ResolveRequest?
  {
    if r.expected != s.stageId then (s, Reject(s, StaleStage))
    else if r.authorization != s.profile.organizer then (s, Reject(s, NotAuthorized))
    else if r.resolution.SetOfficialTerminal? then
      match DecisionRefusal(s, r.eventId, r.kind, now)
      case Some(reason) => (s, Reject(s, reason))
      case None => (LatchDecision(s, r.kind), Accept(s, TerminalLatched))
    else
      match FindPending(s.store.pending, r.eventId)
      case None => (s, Reject(s, EstimateNotHeld))
      case Some(e) =>
        if r.resolution.DismissEstimate? then
          (Terminalize(s.(store := Dismissed(s.store, r.eventId))), Accept(s, EstimateDismissed))
        else
          match ConfirmRefusal(s, e, r.kind)
          case Some(reason) => (s, Reject(s, reason))
          case None =>
            var c := Confirmed(s, e, r.authorization);
            (Terminalize(s.(store := Promoted(s.store, c))), Accept(s, EstimateConfirmed))
  }

  function ResolveEstimate(s: State, id: Id, r: Request, now: nat): (State, Reply)
    requires r.ResolveRequest?
  {
    match Admit(s, id, r, now)
    case Refused(f) => (s, Raised(f))
    case Settled(t, result) => (t, Answer(result))
    case Fresh(t) =>
      var (u, result) := ResolveBody(t, r, now);
      (Remember(u, id, r, result), Answer(result))
  }

  // ------------------------------------------------- resets and barriers

  /** A fresh, disarmed stage behind a raised reset barrier. */
  function Disarm(s: State, newId: Id): State {
    s.(stageId := newId, usedStageIds := s.usedStageIds + {newId}, phase := Init,
       window := NO_WINDOW, latch := NO_RESULT, store := NO_EVENTS, zones := map[],
       reset := Barrier(true, {}), epoch := Barrier(false, {}))
  }

  function ResetBody(s: State, r: Request, newId: Id): (State, RequestResult)
    requires r.ResetRequest? && 0 <= r.stageNumber
  {
    if r.expected != s.stageId then (s, Reject(s, StaleStage))
    else if s.reset.pending then (s, Reject(s, EffectsNotAcknowledged))
    else if !s.phase.Init? && !s.phase.Terminal? then (s, Reject(s, ResetPhase))
    else if r.authorization != s.profile.organizer then (s, Reject(s, NotAuthorized))
    else if r.memoryProfile.Some? && r.memoryProfile.value !in s.profile.approvedMemory then
      (s, Reject(s, MemoryNotApproved))
    else if newId in s.usedStageIds then (s, Reject(s, FactoryReusedId))
    else
      (Disarm(s, newId).(stageNumber := r.stageNumber, role := r.role),
       RequestResult(true, ResetPending, newId, RESET_ACKS, r.memoryProfile))
  }

  function ResetStage(s: State, id: Id, r: Request, newId: Id, now: nat): (State, Reply)
    requires r.ResetRequest?
  {
    if !(0 <= r.stageNumber <= 255) then (s, Raised(BadStageNumber))
    else
      match Admit(s, id, r, now)
      case Refused(f) => (s, Raised(f))
      case Settled(t, result) => (t, Answer(result))
      case Fresh(t) =>
        var (u, result) := ResetBody(t, r, newId);
        (Remember(u, id, r, result), Answer(result))
  }

  function AcknowledgeReset(s: State, stageId: Id, acks: set<Effect>): (State, Reply) {
    if stageId != s.stageId then (s, Acknowledged(false))
    else if !(acks <= RESET_ACKS) then (s, Raised(UnknownAcknowledgement))
    else if !s.reset.pending then (s, Acknowledged(s.reset.acks == RESET_ACKS && acks <= s.reset.acks))
    else
      var t := s.(reset := Barrier(true, s.reset.acks + acks));
      if t.reset.acks != RESET_ACKS then
        (Log(t, ResetAck, Some(stageId), false, EffectsPending), Acknowledged(false))
      else
        (Log(t.(reset := Barrier(false, t.reset.acks)), ResetAck, Some(stageId), true, EffectsAcknowledged),
         Acknowledged(true))
  }

  function WithoutEstimates(m: map<Id, RuleEvent>): map<Id, RuleEvent> {
    map id | id in m && !m[id].evidence.Estimate? :: m[id]
  }

  function ChangeLocalization(s: State, epoch: Id): (State, Reply) {
    if epoch == s.profile.localizationEpoch then (s, Raised(EpochUnchanged))
    else
      var latch := if s.latch.held.Some? && s.latch.held.value.evidence.Estimate?
                   then s.latch.(held := None, hold := false) else s.latch;
      var v := s.(profile := s.profile.(localizationEpoch := epoch),
                  store := Store(s.store.official, [], WithoutEstimates(s.store.ids)),
                  latch := latch, epoch := Barrier(true, {}));
      (Log(v, LocalizationChange, None, true, LocalizationChanged),
       Answer(RequestResult(true, LocalizationChanged, v.stageId, EPOCH_ACKS)))
  }

  function AcknowledgeLocalization(s: State, stageId: Id, acks: set<Effect>): (State, Reply) {
    if stageId != s.stageId then (s, Acknowledged(false))
    else if !(acks <= EPOCH_ACKS) then (s, Raised(UnknownAcknowledgement))
    else if !s.epoch.pending then (s, Acknowledged(s.epoch.acks == EPOCH_ACKS && acks <= s.epoch.acks))
    else
      var t := s.(epoch := Barrier(true, s.epoch.acks + acks));
      if t.epoch.acks != EPOCH_ACKS then
        (Log(t, LocalizationAck, Some(stageId), false, EffectsPending), Acknowledged(false))
      else
        (Log(t.(epoch := Barrier(false, t.epoch.acks)), LocalizationAck, Some(stageId), true, EffectsAcknowledged),
         Acknowledged(true))
  }

  /** A new clock epoch disarms the stage and may move the clock backwards. */
  function ChangeClock(s: State, epoch: Id, newId: Id, now: nat): (State, Reply) {
    if epoch == s.profile.clockEpoch then (s, Raised(EpochUnchanged))
    else if newId in s.usedStageIds then (s, Raised(StageIdReused))
    else
      var t := Disarm(s, newId).(profile := s.profile.(clockEpoch := epoch), operations := map[], lastNow := now);
      (Log(t, ClockChange, None, true, ClockChanged),
       Answer(RequestResult(true, ClockChanged, newId, RESET_ACKS)))
  }

  // ------------------------------------------------------------- snapshot

  function ZoneIn(s: State, purpose: ZonePurpose): Option<Id> {
    if purpose in s.zones && s.zones[purpose].status.Accepted? then Some(s.zones[purpose].zoneId) else None
  }

  predicate MotionAuthorized(s: State) {
    s.phase.Active? && !s.latch.hold && !s.reset.pending && !s.epoch.pending
  }

  function TakeSnapshot(s: State, now: nat): (State, Reply) {
    if now < s.lastNow then (s, Raised(TimeRegression))
    else
      var t := Advance(s, now);
      if now + t.profile.leaseDuration > MAX_STAMP then (t, Raised(LeaseOverflow))
      else
        var u := t.(snapshots := t.snapshots + 1);
        (u, Snapshot(MatchState(
              u.snapshots, u.stageId, u.profile.clockEpoch, u.profile.localizationEpoch,
              now, now + u.profile.leaseDuration, u.stageNumber, u.role, u.phase,
              u.window.started, u.window.freezeEnd, u.window.stageEnd, MotionAuthorized(u), u.latch.hold,
              u.latch.kind, u.latch.evidence, ZoneIn(u, OwnStart), ZoneIn(u, Target))))
  }

  /** The validity rules a published match state must satisfy. */
  predicate LegalMatchState(m: MatchState) {
    && m.stageNumber <= 255
    && m.stamp < m.validUntil <= MAX_STAMP
    && (if m.phase.Init? then m.started == m.freezeEnd == m.stageEnd == 0
        else m.started < m.freezeEnd < m.stageEnd)
    && (m.phase.Terminal? <==> m.terminalKind != NoKind)
    && (m.phase.Terminal? ==> (m.hold <==> m.terminalKind == Ambiguous))
    && (m.hold ==> m.phase.Active? || m.phase.Terminal?)
    && (m.motionAuthorized ==> m.phase.Active? && !m.hold)
  }

  // ----------------------------------------------------------- operations

  datatype Op =
    | DoStart(id: Id, request: Request, now: nat)
    | DoZone(id: Id, request: Request, now: nat)
    | DoEvent(event: RuleEvent, now: nat)
    | DoResolve(id: Id, request: Request, now: nat)
    | DoReset(id: Id, request: Request, newId: Id, now: nat)
    | DoAckReset(stageId: Id, acks: set<Effect>)
    | DoLocalization(epoch: Id)
    | DoAckLocalization(stageId: Id, acks: set<Effect>)
    | DoClock(epoch: Id, newId: Id, now: nat)
    | DoSnapshot(now: nat)

  predicate WellTyped(op: Op) {
    match op
    case DoStart(_, r, _) => r.StartRequest?
    case DoZone(_, r, _) => r.ZoneRequest?
    case DoResolve(_, r, _) => r.ResolveRequest?
    case DoReset(_, r, _, _) => r.ResetRequest?
    case _ => true
  }

  function Step(s: State, op: Op): (State, Reply)
    requires WellTyped(op)
  {
    match op
    case DoStart(id, r, now) => StartStage(s, id, r, now)
    case DoZone(id, r, now) => SetGoalZone(s, id, r, now)
    case DoEvent(e, now) => ResolveEvent(s, e, now)
    case DoResolve(id, r, now) => ResolveEstimate(s, id, r, now)
    case DoReset(id, r, newId, now) => ResetStage(s, id, r, newId, now)
    case DoAckReset(stageId, acks) => AcknowledgeReset(s, stageId, acks)
    case DoLocalization(epoch) => ChangeLocalization(s, epoch)
    case DoAckLocalization(stageId, acks) => AcknowledgeLocalization(s, stageId, acks)
    case DoClock(epoch, newId, now) => ChangeClock(s, epoch, newId, now)
    case DoSnapshot(now) => TakeSnapshot(s, now)
  }
}
