/** Why the stage answers as it does: every refusal names the first of a request's
    defects, and every operation leaves its answer in the journal. */
module StageAnswers {
  import opened Adjudication
  import opened Options
  import opened StageInvariant
  import opened StageModel
  import opened StageRequests
  import opened StageRuns

  // ----------------------------------------------------------------- requests

  predicate Decree(r: Request) { r.ResolveRequest? && r.resolution.SetOfficialTerminal? }

  predicate Named(s: State, r: Request, e: RuleEvent)
    requires r.ResolveRequest?
  {
    e in s.store.pending && e.id == r.eventId
  }

  /** The request has this defect in state s, whatever else is wrong with it. */
  ghost predicate Objects(s: State, r: Request, newId: Id, now: nat, why: Reason) {
    match why
    case StaleStage => r.expected != s.stageId
    case NotAuthorized => r.authorization != s.profile.organizer
    case NotInInit => r.StartRequest? && !s.phase.Init?
    case EffectsNotAcknowledged =>
      if r.ResetRequest? then s.reset.pending else !r.ResolveRequest? && !BarrierFree(s)
    case StampInvalid => r.StartRequest? && !(0 <= r.stamp <= now)
    case DeadlineOverflow => r.StartRequest? && r.stamp + s.profile.stageDuration > MAX_STAMP
    case ZonesClosed => r.ZoneRequest? && (s.phase.Active? || s.phase.Terminal?)
    case ZoneWindowClosed => r.ZoneRequest? && s.phase.Freeze? && s.window.started + s.profile.zoneWindow < now
    case ZoneApprovalUnknown =>
      r.ZoneRequest? && r.zone.status.Accepted? && r.zone.approvalRef !in s.profile.approvedRefs
    case ZoneFrameUnknown => r.ZoneRequest? && r.zone.status.Accepted? && r.zone.frameId !in s.profile.approvedFrames
    case ResetPhase => r.ResetRequest? && Running(s.phase)
    case MemoryNotApproved =>
      r.ResetRequest? && r.memoryProfile.Some? && r.memoryProfile.value !in s.profile.approvedMemory
    case FactoryReusedId => r.ResetRequest? && newId in s.usedStageIds
    case OutsideStage => Decree(r) && s.phase.Init?
    case AlreadyLatched =>
      Decree(r) && s.phase.Terminal? && s.latch.evidence.Official?
      && (s.latch.kind != Ambiguous || r.kind == OfficialAbort)
    case EvidenceRequired => Decree(r) && (r.kind == Capture || r.kind == Arrival) && !Proven(s, r.eventId, r.kind)
    case KindNeedsEvidence => Decree(r) && r.kind == NoKind
    case TimeoutTooEarly => Decree(r) && r.kind == Timeout && now < s.window.stageEnd
    case EstimateNotHeld => r.ResolveRequest? && !Decree(r) && forall e :: e in s.store.pending ==> e.id != r.eventId
    case ConflictingEstimate =>
      r.ResolveRequest? && r.resolution.ConfirmOfficial?
      && exists e, o :: Named(s, r, e) && o in s.store.pending && o.id != e.id && Rivals(o, e)
    case KindMismatch =>
      r.ResolveRequest? && r.resolution.ConfirmOfficial? && exists e :: Named(s, r, e) && e.kind != r.kind
    case _ => false
  }

  /** The order in which defects are looked for. */
  function Rank(why: Reason): nat {
    match why
    case StaleStage => 0
    case NotInInit => 1
    case EffectsNotAcknowledged => 2
    case ZonesClosed => 3
    case ZoneWindowClosed => 3
    case ResetPhase => 3
    case NotAuthorized => 4
    case StampInvalid => 5
    case ZoneApprovalUnknown => 5
    case MemoryNotApproved => 5
    case OutsideStage => 5
    case EstimateNotHeld => 5
    case DeadlineOverflow => 6
    case ZoneFrameUnknown => 6
    case FactoryReusedId => 6
    case AlreadyLatched => 6
    case ConflictingEstimate => 6
    case _ => 7
  }

  function Granted(r: Request): Reason {
    match r
    case StartRequest(_, _, _) => StartLatched
    case ZoneRequest(_, _, _) => ZoneRecorded
    case ResetRequest(_, _, _, _, _) => ResetPending
    case ResolveRequest(_, _, resolution, _, _) =>
      if resolution.SetOfficialTerminal? then TerminalLatched
      else if resolution.DismissEstimate? then EstimateDismissed else EstimateConfirmed
  }

  /** Accepted without any defect, or refused for the defect that comes first. */
  ghost predicate Answers(s: State, r: Request, newId: Id, now: nat, result: RequestResult) {
    && (result.accepted ==> result.reason == Granted(r) && forall why :: !Objects(s, r, newId, now, why))
    && (!result.accepted ==>
         && Objects(s, r, newId, now, result.reason) && result.stageId == s.stageId
         && forall why :: Objects(s, r, newId, now, why) ==> Rank(result.reason) <= Rank(why))
  }

  lemma StartAnswers(s: State, r: Request, newId: Id, now: nat)
    requires Inv(s) && r.StartRequest?
    ensures Answers(s, r, newId, now, StartBody(s, r, now).1)
  {
    hide StoreOk, LatchOk;
  }

  lemma ZoneAnswers(s: State, r: Request, newId: Id, now: nat)
    requires Inv(s) && r.ZoneRequest?
    ensures Answers(s, r, newId, now, ZoneBody(s, r, now).1)
  {
    hide StoreOk, LatchOk, BooksOk, WindowOk;
  }

  lemma ResetAnswers(s: State, r: Request, newId: Id, now: nat)
    requires Inv(s) && r.ResetRequest? && 0 <= r.stageNumber
    ensures Answers(s, r, newId, now, ResetBody(s, r, newId).1)
  {
    hide StoreOk, LatchOk, BooksOk, WindowOk;
  }

  lemma DecreeAnswers(s: State, r: Request, newId: Id, now: nat)
    requires Inv(s) && Decree(r)
    ensures Answers(s, r, newId, now, ResolveBody(s, r, now).1)
  {
    hide StoreOk, LatchOk, BooksOk, WindowOk, Rivals;
  }

  /** What there is to object to once the named estimate is found. */
  ghost predicate HeldDefect(s: State, r: Request, e: RuleEvent, why: Reason)
    requires r.ResolveRequest?
  {
    match why
    case StaleStage => r.expected != s.stageId
    case NotAuthorized => r.authorization != s.profile.organizer
    case ConflictingEstimate =>
      r.resolution.ConfirmOfficial? && exists o :: o in s.store.pending && o.id != e.id && Rivals(o, e)
    case KindMismatch => r.resolution.ConfirmOfficial? && e.kind != r.kind
    case _ => false
  }

  lemma HeldDefects(s: State, r: Request, newId: Id, now: nat, e: RuleEvent, why: Reason)
    requires r.ResolveRequest? && !Decree(r) && Named(s, r, e)
    requires forall o :: Named(s, r, o) ==> o == e
    ensures Objects(s, r, newId, now, why) <==> HeldDefect(s, r, e, why)
  {
    hide Rivals;
  }

  lemma EstimateAnswers(s: State, r: Request, newId: Id, now: nat)
    requires Inv(s) && s.lastNow == now && r.ResolveRequest? && !Decree(r)
    ensures Answers(s, r, newId, now, ResolveBody(s, r, now).1)
  {
    PendingIsFound(s, r.eventId);
    var found := FindPending(s.store.pending, r.eventId);
    if found.Some? {
      assert forall o :: Named(s, r, o) ==> o == found.value;
      hide *;
      forall why ensures Objects(s, r, newId, now, why) <==> HeldDefect(s, r, found.value, why) {
        HeldDefects(s, r, newId, now, found.value, why);
      }
      HeldAnswers(s, r, newId, now, found.value);
    } else {
      hide *;
      UnheldAnswers(s, r, newId, now);
    }
  }

  lemma UnheldAnswers(s: State, r: Request, newId: Id, now: nat)
    requires r.ResolveRequest? && !Decree(r) && FindPending(s.store.pending, r.eventId) == None
    requires forall e :: e in s.store.pending ==> e.id != r.eventId
    ensures Answers(s, r, newId, now, ResolveBody(s, r, now).1)
  {
    hide FindPending, DropPending, Relatch, Rivals;
  }

  lemma HeldAnswers(s: State, r: Request, newId: Id, now: nat, e: RuleEvent)
    requires r.ResolveRequest? && !Decree(r)
    requires FindPending(s.store.pending, r.eventId) == Some(e) && e.upper < s.window.stageEnd
    requires forall why :: Objects(s, r, newId, now, why) <==> HeldDefect(s, r, e, why)
    ensures Answers(s, r, newId, now, ResolveBody(s, r, now).1)
  {
    hide FindPending, Terminalize, Promoted, Confirmed, Dismissed, Rivals, Objects;
  }

  /** Every new request is answered for what is right or wrong with it, judged after the
      clock has moved: granted without a defect, refused for the first one. */
  lemma RequestsAreAnswered(s: State, id: Id, r: Request, newId: Id, now: nat, op: Op)
    requires Inv(s) && NewRequest(s, id, r, now)
    requires match r
             case StartRequest(_, _, _) => op == DoStart(id, r, now)
             case ZoneRequest(_, _, _) => op == DoZone(id, r, now)
             case ResolveRequest(_, _, _, _, _) => op == DoResolve(id, r, now)
             case ResetRequest(_, number, _, _, _) => op == DoReset(id, r, newId, now) && 0 <= number <= 255
    ensures Step(s, op).1.Answer? && Answers(Advance(s, now), r, newId, now, Step(s, op).1.result)
  {
    NewRequestIsFresh(s, id, r, now);
    AdvanceKeepsInv(s, now);
    AdvancedTime(s, now);
    var a := Advance(s, now);
    match r
    case StartRequest(_, _, _) => StartAnswers(a, r, newId, now); hide Answers, Advance, Inv, StartBody, Remember;
    case ZoneRequest(_, _, _) => ZoneAnswers(a, r, newId, now); hide Answers, Advance, Inv, ZoneBody, Remember;
    case ResetRequest(_, _, _, _, _) =>
      ResetAnswers(a, r, newId, now); hide Answers, Advance, Inv, ResetBody, Remember;
    case ResolveRequest(_, _, _, _, _) =>
      if Decree(r) { DecreeAnswers(a, r, newId, now); } else { EstimateAnswers(a, r, newId, now); }
      hide Answers, Advance, Inv, ResolveBody, Remember;
  }

  // ------------------------------------------------------------------- events

  /** The event has this defect in state s, whatever else is wrong with it. */
  predicate EventObjects(s: State, e: RuleEvent, now: nat, why: Reason) {
    match why
    case StaleStage => e.stageId != s.stageId
    case StaleClock => e.clockEpoch != s.profile.clockEpoch
    case StaleLocalization => e.localizationEpoch != s.profile.localizationEpoch
    case PredicateNotTrue => !e.truth.True?
    case OutsideStage => s.phase.Init?
    case PrecedesActive => e.lower < s.window.freezeEnd
    case TimeInFuture => now < e.lower
    case IntervalInFuture => now < e.upper
    case TargetUnresolved => e.kind == Arrival && !(Target in s.zones && s.zones[Target].status.Accepted?)
    case ZoneMismatch => e.kind == Arrival && Target in s.zones && e.zoneId != s.zones[Target].zoneId
    case EstimatedAbort => e.evidence.Estimate? && e.kind == OfficialAbort
    case EstimateAfterTerminal => e.evidence.Estimate? && s.phase.Terminal? && s.latch.evidence.Official?
    case OverlapsDeadline => e.evidence.Estimate? && s.window.stageEnd <= e.upper
    case SimTruthDisabled => e.evidence.SimTruth? && !s.profile.allowSimTruth
    case NotAuthorized => !e.evidence.Estimate? && e.authorization != s.profile.organizer
    case NotBeforeDeadline => !e.evidence.Estimate? && s.window.stageEnd <= e.upper
    case _ => false
  }

  function EventRank(why: Reason): nat {
    match why
    case StaleStage => 0
    case StaleClock => 1
    case StaleLocalization => 2
    case PredicateNotTrue => 3
    case OutsideStage => 4
    case PrecedesActive => 5
    case TimeInFuture => 6
    case IntervalInFuture => 7
    case TargetUnresolved => 8
    case ZoneMismatch => 9
    case EstimatedAbort => 10
    case SimTruthDisabled => 10
    case EstimateAfterTerminal => 11
    case NotAuthorized => 11
    case _ => 12
  }

  /** What an accepted event is answered: an estimate holds the running stage, or is
      only kept once the stage has ended. */
  function EventGranted(s: State, e: RuleEvent, now: nat): Reason {
    if !e.evidence.Estimate? then EventRecorded
    else if Running(s.phase) && now < s.window.stageEnd then LocalHold
    else RetainedEstimate
  }

  ghost predicate EventAnswers(s: State, e: RuleEvent, now: nat, result: RequestResult) {
    && result.stageId == s.stageId
    && (result.accepted ==> result.reason == EventGranted(s, e, now) && forall why :: !EventObjects(s, e, now, why))
    && (!result.accepted ==>
         && EventObjects(s, e, now, result.reason)
         && forall why :: EventObjects(s, e, now, why) ==> EventRank(result.reason) <= EventRank(why))
  }

  /** The same for a new event, judged by the state that it meets. */
  lemma EventsAreAnswered(s: State, e: RuleEvent, now: nat)
    requires Inv(s) && s.lastNow <= now && e.id !in s.store.ids && |s.store.ids| < s.profile.maxEvents
    ensures ResolveEvent(s, e, now).1.Answer? && EventAnswers(s, e, now, ResolveEvent(s, e, now).1.result)
  {
    CheckedAnswers(s, e, now);
    hide CheckEvent, EventAnswers, Inv, Advance, Append;
  }

  lemma CheckedAnswers(s: State, e: RuleEvent, now: nat)
    requires Inv(s)
    ensures EventAnswers(s, e, now, CheckEvent(s, e, now).1)
  {
    hide Append, Terminalize, StoreOk, LatchOk, BooksOk;
  }

  // ------------------------------------------------------------------ journal

  /** The clock journals its transitions and nothing else: one record for a freeze that
      has elapsed, one for a deadline reached. */
  lemma ClockIsJournaled(s: State, now: nat)
    requires Inv(s) && s.lastNow <= now
    ensures var t := Advance(s, now);
            && (t.phase == s.phase ==> t.journal == s.journal)
            && (t.phase != s.phase ==>
                 && t.journal.issued == s.journal.issued + 1
                 && (t.phase.Active? ==> Newest(t, PhaseTransition, None, now, true, FreezeElapsed))
                 && (!t.phase.Active? ==> Newest(t, DeadlineTransition, None, now, true, DeadlineReached)))
  {
    hide StoreOk, LatchOk, BooksOk;
  }

  /** A start request is journalled with its answer, before a transition that is already due. */
  lemma StartIsJournaled(s: State, id: Id, r: Request, now: nat) returns (u: State)
    requires r.StartRequest? && Admit(s, id, r, now).Fresh?
    ensures var (t, reply) := StartStage(s, id, r, now);
            && Journalled(u, reply, Requested(StartOp), id, now)
            && t == if reply.result.accepted then Advance(u, now) else u
  {
    AdmittedAt(s, id, r, now);
    var (v, result) := StartBody(Admit(s, id, r, now).state, r, now);
    assert v.lastNow == now;
    hide Admit, StartBody, Append, Remember, Newest, Advance;
    u := Remember(v, id, r, result);
    RememberNewest(v, id, r, result);
  }

  /** A request met by an earlier one: its own answer is returned and not journalled again;
      another payload under its key, or no room to remember it, is refused and journalled. */
  lemma SettledIsJournaled(s: State, id: Id, r: Request, now: nat)
    requires Admit(s, id, r, now).Settled?
    ensures var key := (OperationOf(r), id);
            var (t, result) := (Admit(s, id, r, now).state, Admit(s, id, r, now).result);
            && (key in s.operations && s.operations[key].request == r ==>
                 t == Advance(s, now) && result == s.operations[key].result)
            && (!(key in s.operations && s.operations[key].request == r) ==>
                 && !result.accepted && Newest(t, Requested(key.0), Some(id), now, false, result.reason)
                 && result.reason == if key in s.operations then PayloadMismatch else CapacityExhausted)
  {
    AdvancedTime(s, now);
    AdvanceForward(s, now);
    hide Append, Advance, Newest;
    var a, op := Advance(s, now), Requested(OperationOf(r));
    LogIsNewest(a, op, Some(id), false, PayloadMismatch);
    LogIsNewest(a, op, Some(id), false, CapacityExhausted);
  }

  /** Another event under a recorded id is refused and journalled. */
  lemma MismatchIsJournaled(s: State, e: RuleEvent, now: nat)
    requires s.lastNow <= now && e.id in s.store.ids && s.store.ids[e.id] != e
    ensures var (t, reply) := ResolveEvent(s, e, now);
            reply.Answer? && !reply.result.accepted && reply.result.reason == PayloadMismatch
            && Newest(t, RuleEventOp, Some(e.id), now, false, PayloadMismatch)
  {
    AdvancedTime(s, now);
    LogIsNewest(Advance(s, now), RuleEventOp, Some(e.id), false, PayloadMismatch);
    hide Advance, Newest, Append;
  }

  /** Both epoch changes are journalled last, under the stage and stamp they lead to. */
  lemma ChangesAreJournaled(s: State, epoch: Id, newId: Id, now: nat)
    ensures var (t, reply) := ChangeLocalization(s, epoch);
            !reply.Raised? ==> Newest(t, LocalizationChange, None, s.lastNow, true, LocalizationChanged)
    ensures var (t, reply) := ChangeClock(s, epoch, newId, now);
            !reply.Raised? ==> Newest(t, ClockChange, None, now, true, ClockChanged)
  {
    hide Append, WithoutEstimates;
    assert forall t: State, op, reason :: Newest(Log(t, op, None, true, reason), op, None, t.lastNow, true, reason) by {
      forall t: State, op, reason
        ensures Newest(Log(t, op, None, true, reason), op, None, t.lastNow, true, reason) {
        LogIsNewest(t, op, None, true, reason);
      }
    }
    hide Newest, Log;
  }

  /** What an acknowledgement leaves in the journal: whether it completed a barrier that
      was up, and nothing otherwise. */
  ghost predicate AckJournalled(s: State, t: State, complete: bool, up: bool, op: AuditOp, id: Id) {
    if up then Newest(t, op, Some(id), s.lastNow, complete, if complete then EffectsAcknowledged else EffectsPending)
    else t == s
  }

  lemma AcknowledgementsAreJournaled(s: State, id: Id, acks: set<Effect>)
    ensures var (t, reply) := AcknowledgeReset(s, id, acks);
            AckJournalled(s, t, reply == Acknowledged(true),
                          id == s.stageId && acks <= RESET_ACKS && s.reset.pending, ResetAck, id)
    ensures var (t, reply) := AcknowledgeLocalization(s, id, acks);
            AckJournalled(s, t, reply == Acknowledged(true),
                          id == s.stageId && acks <= EPOCH_ACKS && s.epoch.pending, LocalizationAck, id)
  {
  }
}
