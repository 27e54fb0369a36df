/** The stage manager as the mutable object it is.  Every method updates the
    fields and is proved to perform exactly the transition of StageModel. */
module StageManagers {
  import opened Adjudication
  import opened Options
  import opened StageInvariant
  import opened StageModel

  class StageManager {
    var profile: Profile
    var stageId: Id
    var stageNumber: nat
    var role: Role
    var phase: Phase
    var window: Window            // stage start, freeze end and deadline
    var latch: Latch              // event hold, held event, terminal kind and evidence
    var store: Store              // official events, pending estimates, event ids
    var zones: map<ZonePurpose, GoalZone>
    var lastNow: nat
    var snapshots: nat
    var reset: Barrier
    var epoch: Barrier
    var operations: map<(Operation, Id), OperationRecord>
    var usedStageIds: set<Id>
    var journal: Journal          // audit deque with its issued and dropped counts

    /** The abstract state. */
    ghost function Abs(): State
      reads this
    {
      State(profile, stageId, stageNumber, role, phase, window, latch, store, zones, lastNow, snapshots,
            reset, epoch, operations, usedStageIds, journal)
    }

    ghost predicate Valid()
      reads this
    {
      Inv(Abs())
    }

    constructor (p: Profile, initialStageId: Id, number: nat, r: Role)
      requires ValidProfile(p) && number <= 255
      ensures Abs() == Initial(p, initialStageId, number, r) && Valid()
    {
      profile, stageId, stageNumber, role := p, initialStageId, number, r;
      phase, window, latch, store := Init, NO_WINDOW, NO_RESULT, NO_EVENTS;
      zones, lastNow, snapshots := map[], 0, 0;
      reset, epoch := Barrier(false, {}), Barrier(false, {});
      operations, usedStageIds, journal := map[], {initialStageId}, Journal([], 0, 0);
      new;
      InitialInv(p, initialStageId, number, r);
    }

    // ------------------------------------------------------- bookkeeping

    method Record(op: AuditOp, subject: Option<Id>, accepted: bool, reason: Reason)
      modifies this`journal
      ensures Abs() == Log(old(Abs()), op, subject, accepted, reason)
    {
      var dropped, records := journal.dropped, journal.records;
      if |records| == profile.maxAudit && profile.maxAudit > 0 {
        dropped, records := dropped + 1, records[1..];
      }
      var issued := journal.issued + 1;
      journal := Journal(records + [AuditRecord(issued, lastNow, op, subject, stageId, phase, accepted, reason)],
                         issued, dropped);
    }

    method SetTimeout()
      modifies this
      ensures Abs() == TimeOut(old(Abs()))
    {
      if phase == Terminal {
        return;
      }
      phase := Terminal;
      latch := Latch(false, None, Timeout, Estimate);
      Record(DeadlineTransition, None, true, DeadlineReached);
    }

    method AdvanceTime(now: nat)
      requires lastNow <= now
      modifies this
      ensures Abs() == Advance(old(Abs()), now)
    {
      lastNow := now;
      if phase == Freeze {
        if now >= window.stageEnd {
          SetTimeout();
        } else if now >= window.freezeEnd {
          phase := Active;
          Record(PhaseTransition, None, true, FreezeElapsed);
        }
      } else if phase == Active && now >= window.stageEnd {
        SetTimeout();
      }
    }

    /** Clock advance, then the replay cache: None means the body must run. */
    method Cached(id: Id, request: Request, now: nat) returns (settled: Option<RequestResult>)
      requires lastNow <= now
      modifies this
      ensures settled.None? ==> Admit(old(Abs()), id, request, now) == Fresh(Abs())
      ensures settled.Some? ==> Admit(old(Abs()), id, request, now) == Settled(Abs(), settled.value)
    {
      AdvanceTime(now);
      var key := (OperationOf(request), id);
      if key !in operations {
        if |operations| >= profile.maxRequests {
          Record(Requested(key.0), Some(id), false, CapacityExhausted);
          return Some(RequestResult(false, CapacityExhausted, stageId));
        }
        return None;
      }
      if operations[key].request != request {
        Record(Requested(key.0), Some(id), false, PayloadMismatch);
        return Some(RequestResult(false, PayloadMismatch, stageId));
      }
      return Some(operations[key].result);
    }

    method RememberResult(id: Id, request: Request, result: RequestResult)
      modifies this`operations, this`journal
      ensures Abs() == Remember(old(Abs()), id, request, result)
    {
      operations := operations[(OperationOf(request), id) := OperationRecord(request, result)];
      Record(Requested(OperationOf(request)), Some(id), result.accepted, result.reason);
    }

    // ---------------------------------------------------- start and zones

    method LatchStart(request: Request, now: nat) returns (result: RequestResult)
      requires request.StartRequest?
      modifies this`window, this`phase, this`latch, this`store
      ensures (Abs(), result) == StartBody(old(Abs()), request, now)
    {
      if request.expected != stageId {
        result := RequestResult(false, StaleStage, stageId);
      } else if phase != Init {
        result := RequestResult(false, NotInInit, stageId);
      } else if reset.pending || epoch.pending {
        result := RequestResult(false, EffectsNotAcknowledged, stageId);
      } else if request.authorization != profile.organizer {
        result := RequestResult(false, NotAuthorized, stageId);
      } else if request.stamp < 0 || request.stamp > now {
        result := RequestResult(false, StampInvalid, stageId);
      } else {
        var end := request.stamp + profile.stageDuration;
        var freezeEnd := request.stamp + profile.freezeDuration;
        if end > MAX_STAMP || freezeEnd > MAX_STAMP {
          result := RequestResult(false, DeadlineOverflow, stageId);
        } else {
          window := Window(request.stamp, freezeEnd, end);
          phase := Freeze;
          latch := NO_RESULT;
          store := NO_EVENTS;
          result := RequestResult(true, StartLatched, stageId);
        }
      }
    }

    method StartStage(id: Id, request: Request, now: nat) returns (reply: Reply)
      requires Valid() && request.StartRequest?
      modifies this
      ensures Valid()
      ensures (Abs(), reply) == StageModel.StartStage(old(Abs()), id, request, now)
    {
      hide Inv;
      StartInv(Abs(), id, request, now);
      if now < lastNow {
        return Raised(TimeRegression);
      }
      var settled := Cached(id, request, now);
      if settled.Some? {
        return Answer(settled.value);
      }
      var result := LatchStart(request, now);
      RememberResult(id, request, result);
      if result.accepted {
        AdvanceTime(now);
      }
      reply := Answer(result);
    }

    method SetGoalZone(id: Id, request: Request, now: nat) returns (reply: Reply)
      requires Valid() && request.ZoneRequest?
      modifies this
      ensures Valid()
      ensures (Abs(), reply) == StageModel.SetGoalZone(old(Abs()), id, request, now)
    {
      hide Inv;
      ZoneInv(Abs(), id, request, now);
      if now < lastNow {
        return Raised(TimeRegression);
      }
      var settled := Cached(id, request, now);
      if settled.Some? {
        return Answer(settled.value);
      }
      var zone := request.zone;
      var result: RequestResult;
      if request.expected != stageId {
        result := RequestResult(false, StaleStage, stageId);
      } else if reset.pending || epoch.pending {
        result := RequestResult(false, EffectsNotAcknowledged, stageId);
      } else if phase != Init && phase != Freeze {
        result := RequestResult(false, ZonesClosed, stageId);
      } else if phase == Freeze && now > window.started + profile.zoneWindow {
        result := RequestResult(false, ZoneWindowClosed, stageId);
      } else if request.authorization != profile.organizer {
        result := RequestResult(false, NotAuthorized, stageId);
      } else if zone.status == Accepted && zone.approvalRef !in profile.approvedRefs {
        result := RequestResult(false, ZoneApprovalUnknown, stageId);
      } else if zone.status == Accepted && zone.frameId !in profile.approvedFrames {
        result := RequestResult(false, ZoneFrameUnknown, stageId);
      } else {
        zones := zones[zone.purpose := zone];
        result := RequestResult(true, ZoneRecorded, stageId);
      }
      RememberResult(id, request, result);
      reply := Answer(result);
    }

    // ------------------------------------------------------- adjudication

    method TerminalizeOfficialEvents()
      modifies this`phase, this`latch
      ensures Abs() == Terminalize(old(Abs()))
    {
      var verdict := Judge(store.official, store.pending);
      match verdict {
        case Decided(kind, evidence) =>
          phase := Terminal;
          latch := Latch(kind == Ambiguous, None, kind, evidence);
        case Contested =>
          if phase == Active {
            latch := Latch(true, None, NoKind, latch.evidence);
          } else {
            latch := latch.(held := None);
          }
        case Open =>
          if phase != Terminal {
            latch := Latch(store.pending != [], OnlyOne(store.pending), NoKind, latch.evidence);
          }
      }
    }

    method ResolveEventChecked(event: RuleEvent, now: nat) returns (result: RequestResult)
      modifies this
      ensures (Abs(), result) == CheckEvent(old(Abs()), event, now)
    {
      if event.stageId != stageId { return RequestResult(false, StaleStage, stageId); }
      if event.clockEpoch != profile.clockEpoch { return RequestResult(false, StaleClock, stageId); }
      if event.localizationEpoch != profile.localizationEpoch {
        return RequestResult(false, StaleLocalization, stageId);
      }
      if event.truth != True { return RequestResult(false, PredicateNotTrue, stageId); }
      if phase == Init { return RequestResult(false, OutsideStage, stageId); }
      if event.lower < window.freezeEnd { return RequestResult(false, PrecedesActive, stageId); }
      if event.lower > now { return RequestResult(false, TimeInFuture, stageId); }
      if event.upper > now { return RequestResult(false, IntervalInFuture, stageId); }
      if phase == Freeze && now >= window.freezeEnd && now < window.stageEnd {
        phase := Active;
        Record(PhaseTransition, None, true, FreezeElapsedBeforeAdjudication);
      }
      if event.kind == Arrival {
        if Target !in zones || zones[Target].status != Accepted {
          return RequestResult(false, TargetUnresolved, stageId);
        }
        if event.zoneId != zones[Target].zoneId {
          return RequestResult(false, ZoneMismatch, stageId);
        }
      }
      result := LatchChecked(event, now);
    }

    method LatchChecked(event: RuleEvent, now: nat) returns (result: RequestResult)
      requires event.kind == Arrival ==>
                 Target in zones && zones[Target].status == Accepted && event.zoneId == zones[Target].zoneId
      modifies this`store, this`phase, this`latch
      ensures (Abs(), result) ==
              match KindRefusal(old(Abs()), event)
              case Some(reason) => (old(Abs()), Reject(old(Abs()), reason))
              case None => LatchEvent(old(Abs()), event, now)
    {
      if event.evidence == Estimate {
        if event.kind == OfficialAbort { return RequestResult(false, EstimatedAbort, stageId); }
        if phase == Terminal && latch.evidence == Official {
          return RequestResult(false, EstimateAfterTerminal, stageId);
        }
        if event.upper >= window.stageEnd { return RequestResult(false, OverlapsDeadline, stageId); }
        store := store.(pending := store.pending + [event]);
        var localHold := phase == Active && now < window.stageEnd;
        if localHold {
          latch := latch.(hold := true, held := OnlyOne(store.pending));
        } else {
          latch := latch.(held := None);
        }
        TerminalizeOfficialEvents();
        return RequestResult(true, if localHold then LocalHold else RetainedEstimate, stageId);
      }
      if event.evidence == SimTruth && !profile.allowSimTruth {
        return RequestResult(false, SimTruthDisabled, stageId);
      }
      if event.authorization != profile.organizer { return RequestResult(false, NotAuthorized, stageId); }
      if event.upper >= window.stageEnd { return RequestResult(false, NotBeforeDeadline, stageId); }
      store := store.(official := store.official + [event]);
      TerminalizeOfficialEvents();
      return RequestResult(true, EventRecorded, stageId);
    }

    method ResolveEvent(event: RuleEvent, now: nat) returns (reply: Reply)
      requires Valid()
      modifies this
      ensures Valid()
      ensures (Abs(), reply) == StageModel.ResolveEvent(old(Abs()), event, now)
    {
      hide Inv;
      EventInv(Abs(), event, now);
      if now < lastNow {
        return Raised(TimeRegression);
      }
      if event.id in store.ids {
        var same := store.ids[event.id] == event;
        AdvanceTime(now);
        if same {
          return Answer(RequestResult(true, DuplicateEvent, stageId));
        }
        Record(RuleEventOp, Some(event.id), false, PayloadMismatch);
        return Answer(RequestResult(false, PayloadMismatch, stageId));
      }
      if |store.ids| >= profile.maxEvents {
        Record(RuleEventOp, Some(event.id), false, CapacityExhausted);
        return Answer(RequestResult(false, CapacityExhausted, stageId));
      }
      var result := ResolveEventChecked(event, now);
      CheckEventSteady(old(Abs()), event, now);
      AdvanceTime(now);
      if result.accepted {
        store := store.(ids := store.ids[event.id := event]);
      }
      Record(RuleEventOp, Some(event.id), result.accepted, result.reason);
      reply := Answer(result);
    }

    // -------------------------------------------------- organizer decisions

    method LatchOfficialTerminal(request: Request, now: nat) returns (result: RequestResult)
      requires request.ResolveRequest? && request.resolution == SetOfficialTerminal
      requires request.expected == stageId && request.authorization == profile.organizer
      modifies this`phase, this`latch
      ensures (Abs(), result) == ResolveBody(old(Abs()), request, now)
    {
      var kind := request.kind;
      if phase == Init {
        return RequestResult(false, OutsideStage, stageId);
      } else if phase == Terminal && latch.evidence == Official && latch.kind != Ambiguous {
        return RequestResult(false, AlreadyLatched, stageId);
      } else if kind == Capture || kind == Arrival {
        if request.eventId !in store.ids {
          return RequestResult(false, EvidenceRequired, stageId);
        }
        var evidence := store.ids[request.eventId];
        if evidence.kind != kind || evidence.evidence != Official || evidence.truth != True
           || evidence.upper >= window.stageEnd {
          return RequestResult(false, EvidenceRequired, stageId);
        }
      } else if kind != Timeout && kind != OfficialAbort && kind != Ambiguous {
        return RequestResult(false, KindNeedsEvidence, stageId);
      } else if kind == Timeout && now < window.stageEnd {
        return RequestResult(false, TimeoutTooEarly, stageId);
      } else if kind == OfficialAbort && phase == Terminal && latch.evidence == Official {
        return RequestResult(false, AlreadyLatched, stageId);
      }
      phase := Terminal;
      latch := Latch(kind == Ambiguous, None, kind, Official);
      result := RequestResult(true, TerminalLatched, stageId);
    }

    method ResolvePending(request: Request, now: nat) returns (result: RequestResult)
      requires request.ResolveRequest? && request.resolution != SetOfficialTerminal
      requires request.expected == stageId && request.authorization == profile.organizer
      modifies this`phase, this`latch, this`store
      ensures (Abs(), result) == ResolveBody(old(Abs()), request, now)
    {
      var found := FindPending(store.pending, request.eventId);
      if found.None? {
        return RequestResult(false, EstimateNotHeld, stageId);
      }
      var held := found.value;
      if request.resolution == DismissEstimate {
        store := store.(pending := DropPending(store.pending, request.eventId));
        TerminalizeOfficialEvents();
        return RequestResult(true, EstimateDismissed, stageId);
      }
      FindPendingId(store.pending, request.eventId);
      if exists o :: o in store.pending && o.id != held.id && Rivals(o, held) {
        return RequestResult(false, ConflictingEstimate, stageId);
      }
      if request.kind != held.kind {
        return RequestResult(false, KindMismatch, stageId);
      }
      if held.upper >= window.stageEnd {
        return RequestResult(false, NotBeforeDeadline, stageId);
      }
      var confirmed: RuleEvent :=
        Event(request.eventId, stageId, profile.clockEpoch, profile.localizationEpoch, request.kind, Official, True,
              held.lower, held.upper, held.inputs, request.authorization, held.zoneId, CONFIRMED_NOTE);
      store := Store(store.official + [confirmed], DropPending(store.pending, request.eventId),
                     store.ids[request.eventId := confirmed]);
      TerminalizeOfficialEvents();
      result := RequestResult(true, EstimateConfirmed, stageId);
    }

    method ResolveEstimate(id: Id, request: Request, now: nat) returns (reply: Reply)
      requires Valid() && request.ResolveRequest?
      modifies this
      ensures Valid()
      ensures (Abs(), reply) == StageModel.ResolveEstimate(old(Abs()), id, request, now)
    {
      hide Inv;
      ResolveInv(Abs(), id, request, now);
      if now < lastNow {
        return Raised(TimeRegression);
      }
      var settled := Cached(id, request, now);
      if settled.Some? {
        return Answer(settled.value);
      }
      var result: RequestResult;
      if request.expected != stageId {
        result := RequestResult(false, StaleStage, stageId);
      } else if request.authorization != profile.organizer {
        result := RequestResult(false, NotAuthorized, stageId);
      } else if request.resolution == SetOfficialTerminal {
        result := LatchOfficialTerminal(request, now);
      } else {
        result := ResolvePending(request, now);
      }
      RememberResult(id, request, result);
      reply := Answer(result);
    }

    // --------------------------------------------------- resets and barriers

    method DisarmStage(newId: Id)
      modifies this
      ensures Abs() == Disarm(old(Abs()), newId)
    {
      stageId := newId;
      usedStageIds := usedStageIds + {newId};
      ClearStage();
      reset := Barrier(true, {});
      epoch := Barrier(false, {});
    }

    method ClearStage()
      modifies this`phase, this`window, this`latch, this`store, this`zones
      ensures Abs() == old(Abs()).(phase := Init, window := NO_WINDOW, latch := NO_RESULT, store := NO_EVENTS,
                                   zones := map[])
    {
      phase := Init;
      window := NO_WINDOW;
      latch := NO_RESULT;
      store := NO_EVENTS;
      zones := map[];
    }

    /** `newId` is what the stage id factory returns. */
    method ResetStage(id: Id, request: Request, newId: Id, now: nat) returns (reply: Reply)
      requires Valid() && request.ResetRequest?
      modifies this
      ensures Valid()
      ensures (Abs(), reply) == StageModel.ResetStage(old(Abs()), id, request, newId, now)
    {
      hide Inv;
      ResetInv(Abs(), id, request, newId, now);
      if !(0 <= request.stageNumber <= 255) {
        return Raised(BadStageNumber);
      }
      if now < lastNow {
        return Raised(TimeRegression);
      }
      var settled := Cached(id, request, now);
      if settled.Some? {
        return Answer(settled.value);
      }
      var result: RequestResult;
      if request.expected != stageId {
        result := RequestResult(false, StaleStage, stageId);
      } else if reset.pending {
        result := RequestResult(false, EffectsNotAcknowledged, stageId);
      } else if phase != Init && phase != Terminal {
        result := RequestResult(false, ResetPhase, stageId);
      } else if request.authorization != profile.organizer {
        result := RequestResult(false, NotAuthorized, stageId);
      } else if request.memoryProfile.Some? && request.memoryProfile.value !in profile.approvedMemory {
        result := RequestResult(false, MemoryNotApproved, stageId);
      } else if newId in usedStageIds {
        result := RequestResult(false, FactoryReusedId, stageId);
      } else {
        DisarmStage(newId);
        stageNumber := request.stageNumber;
        role := request.role;
        result := RequestResult(true, ResetPending, stageId, RESET_ACKS, request.memoryProfile);
      }
      RememberResult(id, request, result);
      reply := Answer(result);
    }

    method AcknowledgeReset(stage: Id, acks: set<Effect>) returns (reply: Reply)
      requires Valid()
      modifies this
      ensures Valid()
      ensures (Abs(), reply) == StageModel.AcknowledgeReset(old(Abs()), stage, acks)
    {
      hide Inv;
      AckResetInv(Abs(), stage, acks);
      if stage != stageId { return Acknowledged(false); }
      if !(acks <= RESET_ACKS) { return Raised(UnknownAcknowledgement); }
      if !reset.pending {
        return Acknowledged(reset.acks == RESET_ACKS && acks <= reset.acks);
      }
      reset := Barrier(true, reset.acks + acks);
      if reset.acks != RESET_ACKS {
        Record(ResetAck, Some(stage), false, EffectsPending);
        return Acknowledged(false);
      }
      reset := Barrier(false, reset.acks);
      Record(ResetAck, Some(stage), true, EffectsAcknowledged);
      return Acknowledged(true);
    }

    method ChangeLocalizationEpoch(newEpoch: Id) returns (reply: Reply)
      requires Valid()
      modifies this
      ensures Valid()
      ensures (Abs(), reply) == ChangeLocalization(old(Abs()), newEpoch)
    {
      hide Inv;
      LocalizationInv(Abs(), newEpoch);
      if newEpoch == profile.localizationEpoch { return Raised(EpochUnchanged); }
      profile := profile.(localizationEpoch := newEpoch);
      store := Store(store.official, [], WithoutEstimates(store.ids));
      if latch.held.Some? && latch.held.value.evidence == Estimate {
        latch := latch.(held := None, hold := false);
      }
      epoch := Barrier(true, {});
      Record(LocalizationChange, None, true, LocalizationChanged);
      return Answer(RequestResult(true, LocalizationChanged, stageId, EPOCH_ACKS));
    }

    method AcknowledgeLocalizationEpoch(stage: Id, acks: set<Effect>) returns (reply: Reply)
      requires Valid()
      modifies this
      ensures Valid()
      ensures (Abs(), reply) == AcknowledgeLocalization(old(Abs()), stage, acks)
    {
      hide Inv;
      AckLocalizationInv(Abs(), stage, acks);
      if stage != stageId { return Acknowledged(false); }
      if !(acks <= EPOCH_ACKS) { return Raised(UnknownAcknowledgement); }
      if !epoch.pending {
        return Acknowledged(epoch.acks == EPOCH_ACKS && acks <= epoch.acks);
      }
      epoch := Barrier(true, epoch.acks + acks);
      if epoch.acks != EPOCH_ACKS {
        Record(LocalizationAck, Some(stage), false, EffectsPending);
        return Acknowledged(false);
      }
      epoch := Barrier(false, epoch.acks);
      Record(LocalizationAck, Some(stage), true, EffectsAcknowledged);
      return Acknowledged(true);
    }

    method ChangeClockEpoch(newEpoch: Id, newId: Id, now: nat) returns (reply: Reply)
      requires Valid()
      modifies this
      ensures Valid()
      ensures (Abs(), reply) == ChangeClock(old(Abs()), newEpoch, newId, now)
    {
      hide Inv;
      ClockInv(Abs(), newEpoch, newId, now);
      if newEpoch == profile.clockEpoch { return Raised(EpochUnchanged); }
      if newId in usedStageIds { return Raised(StageIdReused); }
      profile := profile.(clockEpoch := newEpoch);
      DisarmStage(newId);
      operations := map[];
      lastNow := now;
      Record(StageModel.AuditOp.ClockChange, None, true, ClockChanged);
      return Answer(RequestResult(true, ClockChanged, stageId, RESET_ACKS));
    }

    // ----------------------------------------------------------- snapshots

    method Snapshot(now: nat) returns (reply: Reply)
      requires Valid()
      modifies this
      ensures Valid()
      ensures (Abs(), reply) == TakeSnapshot(old(Abs()), now)
    {
      hide Inv;
      SnapshotInv(Abs(), now);
      if now < lastNow { return Raised(TimeRegression); }
      AdvanceTime(now);
      if now + profile.leaseDuration > MAX_STAMP { return Raised(LeaseOverflow); }
      snapshots := snapshots + 1;
      var authorized := phase == Active && !latch.hold && !reset.pending && !epoch.pending;
      var own := if OwnStart in zones && zones[OwnStart].status == Accepted then Some(zones[OwnStart].zoneId) else None;
      var target := if Target in zones && zones[Target].status == Accepted then Some(zones[Target].zoneId) else None;
      return Reply.Snapshot(MatchState(
        snapshots, stageId, profile.clockEpoch, profile.localizationEpoch, now, now + profile.leaseDuration,
        stageNumber, role, phase, window.started, window.freezeEnd, window.stageEnd, authorized, latch.hold,
        latch.kind, latch.evidence, own, target));
    }
  }

  lemma {:induction false} FindPendingId(p: seq<RuleEvent>, id: Id)
    ensures FindPending(p, id).Some? ==> FindPending(p, id).value.id == id
  {
    if p != [] && p[0].id != id { FindPendingId(p[1..], id); }
  }
}
