/** What each stage request asks for and what it leaves behind: exact conditions of
    acceptance, the evidence that is latched, and what a snapshot shows after any
    run, told from the calls and their replies alone. */
module StageRequests {
  import opened Adjudication
  import opened Options
  import opened StageInvariant
  import opened StageModel
  import opened StageRuns

  // --------------------------------------------------------------- evidence

  lemma StoreInjective(s: State, now: nat)
    requires StoreOk(s.stageId, s.profile, s.window, s.store, now)
    ensures var known := s.store.official + s.store.pending;
            forall x, y :: x in known && y in known && x.id == y.id ==> x == y
  {
    forall x | x in s.store.official + s.store.pending ensures x.id in s.store.ids && s.store.ids[x.id] == x {
      assert Stored(s.stageId, s.profile, s.window, s.store.ids, x, now);
    }
  }

  lemma AdjudicatedEvidence(s: State, now: nat)
    requires StoreOk(s.stageId, s.profile, s.window, s.store, now) && Adjudicated(s) && s.store.official != []
    ensures EvidenceFor(s.store.official, s.store.pending, s.latch.evidence)
  {
    StoreInjective(s, now);
    VerdictEvidence(s.store.official, s.store.pending);
    hide EvidenceFor, Adjudicate, StoreOk;
  }

  /** Every newly accepted event leaves the evidence the known events call for. */
  lemma EventLatchesEvidence(s: State, e: RuleEvent, now: nat)
    requires Inv(s) && e.id !in s.store.ids
    requires ResolveEvent(s, e, now).1.Answer? && ResolveEvent(s, e, now).1.result.accepted
    ensures var t := ResolveEvent(s, e, now).0;
            t.store.official != [] ==> EvidenceFor(t.store.official, t.store.pending, t.latch.evidence)
  {
    EventInv(s, e, now);
    EventAdjudicates(s, e, now);
    hide ResolveEvent, EvidenceFor, StoreOk, LatchOk, WindowOk, BooksOk, Adjudicated, Undecided;
    var t := ResolveEvent(s, e, now).0;
    if t.store.official != [] { AdjudicatedEvidence(t, t.lastNow); }
  }

  /** So does every dismissal or confirmation. */
  lemma DecisionLatchesEvidence(s: State, id: Id, r: Request, now: nat)
    requires Inv(s) && r.ResolveRequest? && !r.resolution.SetOfficialTerminal? && BodyRuns(s, DoResolve(id, r, now))
    requires ResolveEstimate(s, id, r, now).1.result.accepted
    ensures var t := ResolveEstimate(s, id, r, now).0;
            t.store.official != [] ==> EvidenceFor(t.store.official, t.store.pending, t.latch.evidence)
  {
    AdmitInv(s, id, r, now);
    var a := Admit(s, id, r, now).state;
    hide Admit;
    ResolveBodySteady(a, r, now);
    DecisionAdjudicates(a, r, now);
    hide ResolveBody, EvidenceFor, StoreOk, LatchOk, WindowOk, BooksOk, Adjudicated, Undecided, EstimateLeft, Append;
    var t := ResolveBody(a, r, now).0;
    if t.store.official != [] { AdjudicatedEvidence(t, now); }
  }

  // ------------------------------------------------------------------- clock

  predicate Running(phase: Phase) { phase.Freeze? || phase.Active? }

  /** What the clock alone does: a running stage follows its window, at the deadline it
      ends in an estimated TIMEOUT, and nothing else moves. */
  lemma AdvanceExactly(s: State, now: nat)
    requires Inv(s) && s.lastNow <= now
    ensures var t := Advance(s, now);
            && (!Running(s.phase) ==> t.phase == s.phase && t.latch == s.latch)
            && (Running(s.phase) && now < s.window.stageEnd ==>
                 t.latch == s.latch && t.phase == if now < s.window.freezeEnd then Freeze else Active)
            && (Running(s.phase) && s.window.stageEnd <= now ==>
                 t.phase == Terminal && t.latch == Latch(false, None, Timeout, Estimate))
            && t == s.(lastNow := now, phase := t.phase, latch := t.latch, journal := t.journal)
  {
    hide Append;
  }

  /** A request is new: in time, under an unused key, with room to remember it. */
  predicate NewRequest(s: State, id: Id, r: Request, now: nat) {
    s.lastNow <= now && (OperationOf(r), id) !in s.operations && |s.operations| < s.profile.maxRequests
  }

  lemma NewRequestIsFresh(s: State, id: Id, r: Request, now: nat)
    requires Inv(s) && s.lastNow <= now
    ensures NewRequest(s, id, r, now) <==> Admit(s, id, r, now) == Fresh(Advance(s, now))
    ensures Admit(s, id, r, now).Fresh? ==> Admit(s, id, r, now).state == Advance(s, now)
  {
    AdvanceExactly(s, now);
    hide Advance, Append;
  }

  // --------------------------------------------------------- organizer requests

  /** The request names the current stage and comes from the organizer. */
  predicate Ordered(s: State, r: Request) { r.expected == s.stageId && r.authorization == s.profile.organizer }

  predicate BarrierFree(s: State) { !s.reset.pending && !s.epoch.pending }

  predicate MayStart(s: State, r: Request, now: nat)
    requires r.StartRequest?
  {
    && Ordered(s, r) && s.phase.Init? && BarrierFree(s)
    && 0 <= r.stamp <= now && r.stamp + s.profile.stageDuration <= MAX_STAMP
  }

  /** Exactly who may start a stage, and the stage that is started: its window begins at
      the official stamp, and it begins with no event and no result. */
  lemma StartExactly(s: State, id: Id, r: Request, now: nat)
    requires Inv(s) && r.StartRequest? && NewRequest(s, id, r, now)
    ensures var (t, reply) := StartStage(s, id, r, now);
            && reply.Answer? && (reply.result.accepted <==> MayStart(s, r, now))
            && (reply.result.accepted ==>
                 && t.window == Window(r.stamp, r.stamp + s.profile.freezeDuration, r.stamp + s.profile.stageDuration)
                 && t.store == NO_EVENTS && t.stageId == s.stageId && t.zones == s.zones
                 && t.phase == (if now < t.window.freezeEnd then Freeze
                                else if now < t.window.stageEnd then Active else Terminal)
                 && t.latch == (if now < t.window.stageEnd then NO_RESULT else Latch(false, None, Timeout, Estimate)))
            && (!reply.result.accepted ==>
                 t == Advance(s, now).(operations := t.operations, journal := t.journal))
  {
    NewRequestIsFresh(s, id, r, now);
    AdvanceExactly(s, now);
    AdvanceKeepsInv(s, now);
    hide Append, StoreOk, LatchOk, BooksOk;
  }

  /** Zones may be recorded before the start and, during the freeze, inside the zone
      window; accepted zones need an approved reference and frame. */
  predicate MaySetZone(s: State, r: Request, now: nat)
    requires r.ZoneRequest?
  {
    && Ordered(s, r) && BarrierFree(s)
    && (s.phase.Init?
        || (s.phase.Freeze? && now < s.window.freezeEnd && now <= s.window.started + s.profile.zoneWindow))
    && (r.zone.status.Accepted? ==>
         r.zone.approvalRef in s.profile.approvedRefs && r.zone.frameId in s.profile.approvedFrames)
  }

  lemma ZoneBodyExactly(s: State, r: Request, now: nat)
    requires r.ZoneRequest?
    requires s.phase.Freeze? ==> now < s.window.freezeEnd
    ensures var (t, result) := ZoneBody(s, r, now);
            && (result.accepted <==> MaySetZone(s, r, now))
            && (result.accepted ==> r.zone.purpose in t.zones && t.zones[r.zone.purpose] == r.zone)
            && (forall p :: p != r.zone.purpose || !result.accepted ==>
                 (p in t.zones <==> p in s.zones) && (p in s.zones ==> t.zones[p] == s.zones[p]))
            && t == s.(zones := t.zones)
  {
  }

  lemma ZoneTimes(s: State, r: Request, now: nat)
    requires Inv(s) && r.ZoneRequest? && s.lastNow <= now
    ensures MaySetZone(Advance(s, now), r, now) <==> MaySetZone(s, r, now)
    ensures var a := Advance(s, now); a.zones == s.zones && (a.phase.Freeze? ==> now < a.window.freezeEnd)
  {
    AdvanceExactly(s, now);
    hide Append, StoreOk, LatchOk, BooksOk, Advance;
  }

  /** Exactly which zones are recorded, and where: under their own purpose only. */
  lemma ZoneExactly(s: State, id: Id, r: Request, now: nat)
    requires Inv(s) && r.ZoneRequest? && NewRequest(s, id, r, now)
    ensures var (t, reply) := SetGoalZone(s, id, r, now);
            && reply.Answer? && (reply.result.accepted <==> MaySetZone(s, r, now))
            && (reply.result.accepted ==> r.zone.purpose in t.zones && t.zones[r.zone.purpose] == r.zone)
            && (forall p :: p != r.zone.purpose || !reply.result.accepted ==>
                 (p in t.zones <==> p in s.zones) && (p in s.zones ==> t.zones[p] == s.zones[p]))
            && t == Advance(s, now).(zones := t.zones, operations := t.operations, journal := t.journal)
  {
    NewRequestIsFresh(s, id, r, now);
    ZoneTimes(s, r, now);
    ZoneBodyExactly(Advance(s, now), r, now);
    hide Append, Inv, Advance, ZoneBody, MaySetZone;
  }

  predicate MayReset(s: State, r: Request, newId: Id, now: nat)
    requires r.ResetRequest?
  {
    && Ordered(s, r) && !s.reset.pending
    && (s.phase.Init? || s.phase.Terminal? || s.window.stageEnd <= now)
    && (r.memoryProfile.Some? ==> r.memoryProfile.value in s.profile.approvedMemory)
    && newId !in s.usedStageIds
  }

  /** Exactly when a stage is reset, and the blank stage that replaces it. */
  lemma ResetExactly(s: State, id: Id, r: Request, newId: Id, now: nat)
    requires Inv(s) && r.ResetRequest? && 0 <= r.stageNumber <= 255 && NewRequest(s, id, r, now)
    ensures var (t, reply) := ResetStage(s, id, r, newId, now);
            && reply.Answer? && (reply.result.accepted <==> MayReset(s, r, newId, now))
            && (reply.result.accepted ==>
                 && t.stageId == newId == reply.result.stageId && t.usedStageIds == s.usedStageIds + {newId}
                 && t.stageNumber == r.stageNumber && t.role == r.role && t.phase == Init && t.window == NO_WINDOW
                 && t.latch == NO_RESULT && t.store == NO_EVENTS && t.zones == map[]
                 && t.reset == Barrier(true, {}) && t.epoch == Barrier(false, {})
                 && t.profile == s.profile && t.snapshots == s.snapshots && t.lastNow == now
                 && reply.result.effects == RESET_ACKS && reply.result.memoryProfile == r.memoryProfile)
            && (!reply.result.accepted ==>
                 t == Advance(s, now).(operations := t.operations, journal := t.journal))
  {
    NewRequestIsFresh(s, id, r, now);
    AdvanceExactly(s, now);
    hide Append, StoreOk, LatchOk, BooksOk, Advance;
  }

  // ------------------------------------------------------ organizer decisions

  /** The named estimate is pending and, to be confirmed, of the stated kind and
      without a pending rival. */
  predicate MayDecide(s: State, r: Request)
    requires r.ResolveRequest?
  {
    && Ordered(s, r)
    && exists i :: 0 <= i < |s.store.pending| && Decides(s, r, s.store.pending[i])
  }

  predicate Decides(s: State, r: Request, e: RuleEvent)
    requires r.ResolveRequest?
  {
    && e.id == r.eventId
    && (r.resolution.ConfirmOfficial? ==>
         r.kind == e.kind && forall o :: o in s.store.pending && o.id != e.id ==> !Rivals(o, e))
  }

  /** An official event made of an estimate: the same happening on the organizer's word. */
  predicate Confirms(s: State, c: RuleEvent, e: RuleEvent, authorization: Id) {
    && c.id == e.id && c.kind == e.kind && c.lower == e.lower && c.upper == e.upper
    && c.inputs == e.inputs && c.zoneId == e.zoneId
    && c.evidence == Official && c.truth == True && c.authorization == authorization
    && c.stageId == s.stageId
    && c.clockEpoch == s.profile.clockEpoch && c.localizationEpoch == s.profile.localizationEpoch
  }

  lemma PendingIsFound(s: State, id: Id)
    requires StoreOk(s.stageId, s.profile, s.window, s.store, s.lastNow)
    ensures FindPending(s.store.pending, id).Some? <==> exists e :: e in s.store.pending && e.id == id
    ensures FindPending(s.store.pending, id).Some? ==>
              var e := FindPending(s.store.pending, id).value;
              && e in s.store.pending && e.id == id && e.upper < s.window.stageEnd
              && forall o :: o in s.store.pending && o.id == id ==> o == e
  {
    FindPendingFinds(s.store.pending, id);
    if FindPending(s.store.pending, id).Some? {
      var e := FindPending(s.store.pending, id).value;
      forall o | o in s.store.pending && o.id == id ensures o == e {
        assert Stored(s.stageId, s.profile, s.window, s.store.ids, o, s.lastNow);
        assert Stored(s.stageId, s.profile, s.window, s.store.ids, e, s.lastNow);
      }
    }
  }

  lemma BodyDecides(s: State, r: Request, now: nat)
    requires Inv(s) && s.lastNow == now && r.ResolveRequest? && !r.resolution.SetOfficialTerminal?
    ensures ResolveBody(s, r, now).1.accepted <==> MayDecide(s, r)
    ensures !ResolveBody(s, r, now).1.accepted ==> ResolveBody(s, r, now).0 == s
  {
    PendingIsFound(s, r.eventId);
    hide FindPending, DropPending, Relatch, StoreOk, LatchOk, BooksOk, WindowOk, Rivals;
    if FindPending(s.store.pending, r.eventId).Some? {
      var e := FindPending(s.store.pending, r.eventId).value;
      var i :| 0 <= i < |s.store.pending| && s.store.pending[i] == e;
      assert Decides(s, r, s.store.pending[i]) <==> r.resolution.DismissEstimate? || ConfirmRefusal(s, e, r.kind).None?;
    }
  }

  /** Exactly which dismissals and confirmations are accepted; a refusal changes nothing. */
  lemma DecisionExactly(s: State, id: Id, r: Request, now: nat)
    requires Inv(s) && r.ResolveRequest? && !r.resolution.SetOfficialTerminal? && NewRequest(s, id, r, now)
    ensures var (t, reply) := ResolveEstimate(s, id, r, now);
            && reply.Answer? && (reply.result.accepted <==> MayDecide(s, r))
            && (!reply.result.accepted ==> t == Advance(s, now).(operations := t.operations, journal := t.journal))
  {
    NewRequestIsFresh(s, id, r, now);
    AdvanceExactly(s, now);
    AdvanceKeepsInv(s, now);
    hide Append, Advance, Inv, MayDecide, ResolveBody;
    BodyDecides(Advance(s, now), r, now);
    SameDecision(s, Advance(s, now), r);
  }

  lemma SameDecision(s: State, t: State, r: Request)
    requires r.ResolveRequest? && t.store == s.store && t.stageId == s.stageId && t.profile == s.profile
    ensures MayDecide(s, r) <==> MayDecide(t, r)
  {
    if i :| 0 <= i < |s.store.pending| && Decides(s, r, s.store.pending[i]) {
      assert Decides(t, r, t.store.pending[i]);
    }
    if i :| 0 <= i < |s.store.pending| && Decides(t, r, s.store.pending[i]) {
      assert Decides(s, r, s.store.pending[i]);
    }
  }

  /** A confirmed estimate is recorded as the same happening with official evidence. */
  lemma ConfirmedIsTheSame(s: State, r: Request, now: nat) returns (e: RuleEvent, c: RuleEvent)
    requires Inv(s) && s.lastNow == now && r.ResolveRequest? && r.resolution.ConfirmOfficial?
    requires ResolveBody(s, r, now).1.accepted
    ensures e in s.store.pending && e.id == r.eventId && Confirms(s, c, e, r.authorization)
    ensures var t := ResolveBody(s, r, now).0;
            && t.store.official == s.store.official + [c] && t.store.ids == s.store.ids[r.eventId := c]
            && forall o :: o in t.store.pending <==> o in s.store.pending && o != e
  {
    PendingIsFound(s, r.eventId);
    FindDrop(s.store.pending, r.eventId);
    hide FindPending, DropPending, Relatch, StoreOk, LatchOk, BooksOk, WindowOk, Rivals;
    e := FindPending(s.store.pending, r.eventId).value;
    c := Confirmed(s, e, r.authorization);
  }

  /** What the organizer may decide outright. */
  predicate MayDecree(s: State, r: Request, now: nat)
    requires r.ResolveRequest?
  {
    && Ordered(s, r) && !s.phase.Init? && r.kind != NoKind
    && (s.phase.Terminal? && s.latch.evidence.Official? ==> s.latch.kind == Ambiguous && r.kind != OfficialAbort)
    && (r.kind == Timeout ==> s.window.stageEnd <= now)
    && (r.kind == Capture || r.kind == Arrival ==> Proven(s, r.eventId, r.kind))
  }

  lemma BodyDecrees(s: State, r: Request, now: nat)
    requires r.ResolveRequest? && r.resolution.SetOfficialTerminal?
    ensures var (t, result) := ResolveBody(s, r, now);
            && (result.accepted <==> MayDecree(s, r, now))
            && t == s.(phase := t.phase, latch := t.latch)
            && (result.accepted ==>
                 t.phase == Terminal && t.latch == Latch(r.kind == Ambiguous, None, r.kind, Official))
            && (!result.accepted ==> t == s)
  {
  }

  /** Exactly which terminal decisions are accepted, once the clock has moved, and that
      an accepted one is latched as official and changes nothing else. */
  lemma DecreeExactly(s: State, id: Id, r: Request, now: nat)
    requires Inv(s) && r.ResolveRequest? && r.resolution.SetOfficialTerminal? && NewRequest(s, id, r, now)
    ensures var (t, reply) := ResolveEstimate(s, id, r, now);
            var a := Advance(s, now);
            && reply.Answer? && (reply.result.accepted <==> MayDecree(a, r, now))
            && t == a.(phase := t.phase, latch := t.latch, operations := t.operations, journal := t.journal)
            && (reply.result.accepted ==>
                 t.phase == Terminal && t.latch == Latch(r.kind == Ambiguous, None, r.kind, Official))
            && (!reply.result.accepted ==> t.phase == a.phase && t.latch == a.latch)
  {
    NewRequestIsFresh(s, id, r, now);
    BodyDecrees(Advance(s, now), r, now);
    hide Append, Advance, Inv, ResolveBody, MayDecree;
  }

  // ------------------------------------------------------------------- events

  /** An event already on record: an equal one is answered as accepted and changes
      nothing but the clock, another one under its id is refused. */
  lemma KnownEventExactly(s: State, e: RuleEvent, now: nat)
    requires Inv(s) && s.lastNow <= now && e.id in s.store.ids
    ensures var (t, reply) := ResolveEvent(s, e, now);
            && reply.Answer? && (reply.result.accepted <==> s.store.ids[e.id] == e)
            && t == Advance(s, now).(journal := t.journal)
            && (reply.result.accepted ==> t == Advance(s, now))
  {
    hide Append, Advance, Inv;
  }

  /** A refused new event leaves everything but clock and journal; where no room is
      left, not even the clock moves. */
  lemma RefusedEventExactly(s: State, e: RuleEvent, now: nat)
    requires Inv(s) && e.id !in s.store.ids
    requires ResolveEvent(s, e, now).1.Raised? || !ResolveEvent(s, e, now).1.result.accepted
    ensures var (t, reply) := ResolveEvent(s, e, now);
            && (reply.Raised? <==> now < s.lastNow) && (reply.Raised? ==> t == s)
            && (s.lastNow <= now && |s.store.ids| >= s.profile.maxEvents ==> t == s.(journal := t.journal))
            && (s.lastNow <= now && |s.store.ids| < s.profile.maxEvents ==>
                 t == Advance(s, now).(journal := t.journal))
  {
    if s.lastNow <= now && |s.store.ids| < s.profile.maxEvents {
      AdvanceExactly(s, now);
      OpenThenAdvance(s, now);
    }
    hide Append, Advance, Inv, LatchEvent, OpenStage, Relatch;
  }

  lemma OpenThenAdvance(s: State, now: nat)
    requires Inv(s) && s.lastNow <= now
    ensures Advance(OpenStage(s, now), now) == Advance(s, now).(journal := Advance(OpenStage(s, now), now).journal)
  {
    hide Append;
  }

  // ------------------------------------------------------------- epoch changes

  /** A localization change: refused only for the epoch in force; otherwise the new
      epoch is adopted, the estimates are forgotten, their ids included, and all
      effects of the change are owed. */
  lemma LocalizationExactly(s: State, epoch: Id)
    requires Inv(s)
    ensures var (t, reply) := ChangeLocalization(s, epoch);
            && (reply.Raised? <==> epoch == s.profile.localizationEpoch) && (reply.Raised? ==> t == s)
            && (!reply.Raised? ==>
                 && reply == Answer(RequestResult(true, LocalizationChanged, s.stageId, EPOCH_ACKS))
                 && t.profile == s.profile.(localizationEpoch := epoch)
                 && t.store.official == s.store.official && t.store.pending == []
                 && (forall id :: id in t.store.ids <==> id in s.store.ids && !s.store.ids[id].evidence.Estimate?)
                 && (forall id :: id in t.store.ids ==> t.store.ids[id] == s.store.ids[id])
                 && t.latch == (if s.latch.held.Some? then s.latch.(hold := false, held := None) else s.latch)
                 && t.epoch == Barrier(true, {})
                 && t == s.(profile := t.profile, store := t.store, latch := t.latch, epoch := t.epoch,
                            journal := t.journal))
  {
    if s.latch.held.Some? {
      assert s.latch.held.value in s.store.pending;
    }
    hide Append;
  }

  /** A clock change: refused only for the epoch in force or a used stage id; otherwise
      a blank stage under the new epoch and stamp, and no request is remembered, so
      every request is new again. */
  lemma ClockExactly(s: State, epoch: Id, newId: Id, now: nat)
    requires Inv(s)
    ensures var (t, reply) := ChangeClock(s, epoch, newId, now);
            && (reply.Raised? <==> epoch == s.profile.clockEpoch || newId in s.usedStageIds)
            && (reply.Raised? ==> t == s)
            && (!reply.Raised? ==>
                 && reply == Answer(RequestResult(true, ClockChanged, newId, RESET_ACKS))
                 && t.profile == s.profile.(clockEpoch := epoch) && t.lastNow == now
                 && t.stageId == newId && t.usedStageIds == s.usedStageIds + {newId}
                 && t.stageNumber == s.stageNumber && t.role == s.role && t.snapshots == s.snapshots
                 && t.phase == Init && t.window == NO_WINDOW && t.latch == NO_RESULT && t.store == NO_EVENTS
                 && t.zones == map[] && t.reset == Barrier(true, {}) && t.epoch == Barrier(false, {})
                 && forall id, r, later :: later >= now ==> NewRequest(t, id, r, later))
  {
    hide Append;
  }

  // -------------------------------------------- what snapshots show after a run

  /** What an observer of the calls and replies knows a snapshot must show.  `done` are
      the keys of accepted requests, so that a replayed answer is not counted again. */
  datatype Ledger = Ledger(
    stageId: Id, clockEpoch: Id, localizationEpoch: Id, stageNumber: int, role: Role, started: Option<int>,
    own: Option<GoalZone>, target: Option<GoalZone>, snapshots: nat, done: set<(Operation, Id)>)

  function Blank(l: Ledger, stageId: Id): Ledger {
    l.(stageId := stageId, started := None, own := None, target := None)
  }

  function Note(l: Ledger, op: Op, reply: Reply): Ledger
    requires WellTyped(op)
  {
    if reply.Snapshot? then l.(snapshots := l.snapshots + 1)
    else if !reply.Answer? || !reply.result.accepted then l
    else match op
      case DoStart(id, r, _) =>
        if (StartOp, id) in l.done then l else l.(started := Some(r.stamp), done := l.done + {(StartOp, id)})
      case DoZone(id, r, _) =>
        if (ZoneOp, id) in l.done then l
        else
          var m := l.(done := l.done + {(ZoneOp, id)});
          if r.zone.purpose.OwnStart? then m.(own := Some(r.zone)) else m.(target := Some(r.zone))
      case DoResolve(id, _, _) => l.(done := l.done + {(ResolveOp, id)})
      case DoReset(id, r, newId, _) =>
        if (ResetOp, id) in l.done then l
        else Blank(l, newId).(stageNumber := r.stageNumber, role := r.role, done := l.done + {(ResetOp, id)})
      case DoLocalization(epoch) => l.(localizationEpoch := epoch)
      case DoClock(epoch, newId, _) => Blank(l, newId).(clockEpoch := epoch, done := {})
      case _ => l
  }

  function Notes(s: State, ops: seq<Op>): Ledger
    requires AllTyped(ops)
  {
    if ops == [] then
      Ledger(s.stageId, s.profile.clockEpoch, s.profile.localizationEpoch, s.stageNumber, s.role,
             None, None, None, s.snapshots, {})
    else
      var n := |ops| - 1;
      Note(Notes(s, ops[..n]), ops[n], Step(Run(s, ops[..n]), ops[n]).1)
  }

  predicate ZoneShown(zones: map<ZonePurpose, GoalZone>, purpose: ZonePurpose, noted: Option<GoalZone>) {
    if noted.Some? then purpose in zones && zones[purpose] == noted.value else purpose !in zones
  }

  ghost predicate DoneMatches(done: set<(Operation, Id)>, operations: map<(Operation, Id), OperationRecord>) {
    forall k :: k in done <==> k in operations && operations[k].result.accepted
  }

  ghost predicate Tallies(l: Ledger, s: State, p: Profile) {
    && s.stageId == l.stageId && s.stageNumber == l.stageNumber && s.role == l.role && s.snapshots == l.snapshots
    && s.profile == p.(clockEpoch := l.clockEpoch, localizationEpoch := l.localizationEpoch)
    && (l.started.None? <==> s.phase.Init?)
    && (l.started.Some? ==> s.window.started == l.started.value)
    && ZoneShown(s.zones, OwnStart, l.own) && ZoneShown(s.zones, Target, l.target)
    && DoneMatches(l.done, s.operations)
  }

  /** Nothing a snapshot's identity, window or zones depend on. */
  ghost predicate SameFrame(s: State, t: State) {
    && t.stageId == s.stageId && t.stageNumber == s.stageNumber && t.role == s.role && t.snapshots == s.snapshots
    && t.profile == s.profile && t.zones == s.zones && t.window == s.window && (t.phase.Init? <==> s.phase.Init?)
  }

  lemma AdvanceFrame(s: State, now: nat)
    ensures SameFrame(s, Advance(s, now))
  {
    hide Append;
  }

  /** The ledger still tallies when at most the done keys moved. */
  lemma TalliesFrame(l: Ledger, s: State, t: State, p: Profile, done: set<(Operation, Id)>)
    requires Tallies(l, s, p) && SameFrame(s, t) && DoneMatches(done, t.operations)
    ensures Tallies(l.(done := done), t, p)
  {
    hide DoneMatches;
  }

  lemma SettledFrame(s: State, id: Id, r: Request, now: nat)
    requires Admit(s, id, r, now).Settled?
    ensures SameFrame(s, Admit(s, id, r, now).state) && Admit(s, id, r, now).state.operations == s.operations
    ensures Admit(s, id, r, now).result.accepted ==>
              (OperationOf(r), id) in s.operations && s.operations[(OperationOf(r), id)].result.accepted
  {
    AdvanceFrame(s, now);
    AdvanceForward(s, now);
    hide Advance, Append;
  }

  lemma ReplayTallies(l: Ledger, s: State, p: Profile, id: Id, r: Request, now: nat)
    requires Tallies(l, s, p) && !Admit(s, id, r, now).Fresh?
    ensures Admit(s, id, r, now).Settled? ==> Tallies(l, Admit(s, id, r, now).state, p)
    ensures Admit(s, id, r, now).Settled? && Admit(s, id, r, now).result.accepted ==> (OperationOf(r), id) in l.done
  {
    if Admit(s, id, r, now).Settled? {
      SettledFrame(s, id, r, now);
      hide Admit, SameFrame;
      TalliesFrame(l, s, Admit(s, id, r, now).state, p, l.done);
      assert l.(done := l.done) == l;
    }
  }

  lemma DoneGrows(l: Ledger, s: State, id: Id, r: Request, result: RequestResult)
    requires DoneMatches(l.done, s.operations) && (OperationOf(r), id) !in s.operations
    ensures (OperationOf(r), id) !in l.done
    ensures DoneMatches(if result.accepted then l.done + {(OperationOf(r), id)} else l.done,
                        s.operations[(OperationOf(r), id) := OperationRecord(r, result)])
  {
  }

  lemma StartTallies(l: Ledger, s: State, p: Profile, id: Id, r: Request, now: nat)
    requires Inv(s) && Tallies(l, s, p) && r.StartRequest?
    ensures var (t, reply) := StartStage(s, id, r, now);
            Tallies(Note(l, DoStart(id, r, now), reply), t, p)
  {
    if Admit(s, id, r, now).Fresh? {
      NewRequestIsFresh(s, id, r, now);
      StartCache(s, id, r, now);
      StartExactly(s, id, r, now);
      StartKeepsRest(s, id, r, now);
      AdvanceFrame(s, now);
      hide Advance, Admit, StartStage, Inv, MayStart, DoneMatches;
      DoneGrows(l, s, id, r, StartStage(s, id, r, now).1.result);
    } else {
      ReplayTallies(l, s, p, id, r, now);
      hide Admit, Inv, Tallies;
    }
  }

  lemma StartKeepsRest(s: State, id: Id, r: Request, now: nat)
    requires Inv(s) && r.StartRequest? && NewRequest(s, id, r, now)
    ensures var t := StartStage(s, id, r, now).0;
            && t.profile == s.profile && t.stageNumber == s.stageNumber && t.role == s.role
            && t.snapshots == s.snapshots && t.zones == s.zones && t.stageId == s.stageId
  {
    NewRequestIsFresh(s, id, r, now);
    AdvanceFrame(s, now);
    var (u, result) := StartBody(Advance(s, now), r, now);
    AdvanceFrame(Remember(u, id, r, result), now);
    hide Append, Advance, Inv;
  }

  lemma ZonesShown(l: Ledger, zones: map<ZonePurpose, GoalZone>, after: map<ZonePurpose, GoalZone>, zone: GoalZone)
    requires ZoneShown(zones, OwnStart, l.own) && ZoneShown(zones, Target, l.target)
    requires zone.purpose in after && after[zone.purpose] == zone
    requires forall p :: p != zone.purpose ==> (p in after <==> p in zones) && (p in zones ==> after[p] == zones[p])
    ensures ZoneShown(after, OwnStart, if zone.purpose.OwnStart? then Some(zone) else l.own)
    ensures ZoneShown(after, Target, if zone.purpose.Target? then Some(zone) else l.target)
  {
  }

  lemma ZoneFrame(s: State, id: Id, r: Request, now: nat)
    requires Inv(s) && r.ZoneRequest? && NewRequest(s, id, r, now)
    ensures var (t, reply) := SetGoalZone(s, id, r, now);
            SameFrame(s, t.(zones := s.zones)) && (reply.Answer? && !reply.result.accepted ==> t.zones == s.zones)
  {
    NewRequestIsFresh(s, id, r, now);
    AdvanceFrame(s, now);
    hide Advance, Append, Inv;
  }

  lemma ZoneTallies(l: Ledger, s: State, p: Profile, id: Id, r: Request, now: nat)
    requires Inv(s) && Tallies(l, s, p) && r.ZoneRequest?
    ensures var (t, reply) := SetGoalZone(s, id, r, now);
            Tallies(Note(l, DoZone(id, r, now), reply), t, p)
  {
    if Admit(s, id, r, now).Fresh? {
      NewRequestIsFresh(s, id, r, now);
      ZoneAndResetCache(s, id, r, 0, now);
      ZoneExactly(s, id, r, now);
      ZoneFrame(s, id, r, now);
      var (t, reply) := SetGoalZone(s, id, r, now);
      hide Advance, Admit, SetGoalZone, Inv, MaySetZone, DoneMatches;
      DoneGrows(l, s, id, r, reply.result);
      if reply.result.accepted { ZonesShown(l, s.zones, t.zones, r.zone); }
      hide ZoneShown;
    } else {
      ReplayTallies(l, s, p, id, r, now);
      hide Admit, Inv, Tallies;
    }
  }

  lemma ResetTallies(l: Ledger, s: State, p: Profile, id: Id, r: Request, newId: Id, now: nat)
    requires Inv(s) && Tallies(l, s, p) && r.ResetRequest?
    ensures var (t, reply) := ResetStage(s, id, r, newId, now);
            Tallies(Note(l, DoReset(id, r, newId, now), reply), t, p)
  {
    if 0 <= r.stageNumber <= 255 {
      if Admit(s, id, r, now).Fresh? {
        NewRequestIsFresh(s, id, r, now);
        ZoneAndResetCache(s, id, r, newId, now);
        ResetExactly(s, id, r, newId, now);
        AdvanceFrame(s, now);
        var (t, reply) := ResetStage(s, id, r, newId, now);
        hide Advance, Admit, ResetStage, Inv, MayReset, DoneMatches;
        DoneGrows(l, s, id, r, reply.result);
      } else {
        ReplayTallies(l, s, p, id, r, now);
        hide Admit, Inv, Tallies;
      }
    }
  }

  lemma EventKeepsFrame(s: State, e: RuleEvent, now: nat)
    requires Inv(s)
    ensures SameFrame(s, ResolveEvent(s, e, now).0) && ResolveEvent(s, e, now).0.operations == s.operations
  {
    EventCache(s, e, now);
    if now < s.lastNow {
    } else if e.id in s.store.ids {
      KnownEventExactly(s, e, now);
      AdvanceExactly(s, now);
      hide ResolveEvent, Advance, Inv;
    } else if !ResolveEvent(s, e, now).1.result.accepted {
      RefusedEventExactly(s, e, now);
      AdvanceExactly(s, now);
      hide ResolveEvent, Advance, Inv;
    } else {
      AcceptedFrame(s, e, now);
    }
  }

  lemma AcceptedFrame(s: State, e: RuleEvent, now: nat)
    requires Inv(s) && e.id !in s.store.ids
    requires ResolveEvent(s, e, now).1.Answer? && ResolveEvent(s, e, now).1.result.accepted
    ensures SameFrame(s, ResolveEvent(s, e, now).0)
  {
    CheckedEvent(s, e, now);
    assert !s.phase.Init?;
    LatchedFrame(s, e, now);
    AdvanceFrame(Terminalize(WithEvent(OpenStage(s, now), e, now)), now);
    hide Append, CheckEvent, Terminalize, WithEvent, OpenStage, Advance;
  }

  lemma LatchedFrame(s: State, e: RuleEvent, now: nat)
    requires !s.phase.Init?
    ensures SameFrame(s, Terminalize(WithEvent(OpenStage(s, now), e, now)))
  {
    hide Append, Adjudicate;
  }

  lemma InitIsEmpty(s: State)
    requires Inv(s) && s.phase.Init?
    ensures s.store == NO_EVENTS
  {
  }

  lemma FrameOn(s: State, t: State, u: State)
    requires SameFrame(s, t) && SameFrame(t, u)
    ensures SameFrame(s, u)
  {
  }

  lemma RememberFrame(s: State, id: Id, r: Request, result: RequestResult)
    ensures SameFrame(s, Remember(s, id, r, result))
  {
    hide Append;
  }

  lemma ResolveKeepsFrame(s: State, id: Id, r: Request, now: nat)
    requires Inv(s) && r.ResolveRequest? && Admit(s, id, r, now).Fresh?
    ensures SameFrame(s, ResolveEstimate(s, id, r, now).0)
  {
    NewRequestIsFresh(s, id, r, now);
    AdvanceKeepsInv(s, now);
    AdvanceFrame(s, now);
    var a := Advance(s, now);
    if a.phase.Init? { InitIsEmpty(a); }
    BodyKeepsFrame(a, r, now);
    hide Advance, Append, Inv, ResolveBody, SameFrame, Remember;
    var (u, result) := ResolveBody(a, r, now);
    RememberFrame(u, id, r, result);
    FrameOn(s, a, u);
    FrameOn(s, u, Remember(u, id, r, result));
  }

  lemma BodyKeepsFrame(s: State, r: Request, now: nat)
    requires r.ResolveRequest?
    ensures SameFrame(s, ResolveBody(s, r, now).0) || s.phase.Init?
    ensures s.phase.Init? && s.store == NO_EVENTS ==> SameFrame(s, ResolveBody(s, r, now).0)
  {
    hide Adjudicate;
  }

  lemma ResolveTallies(l: Ledger, s: State, p: Profile, id: Id, r: Request, now: nat)
    requires Inv(s) && Tallies(l, s, p) && r.ResolveRequest?
    ensures var (t, reply) := ResolveEstimate(s, id, r, now);
            Tallies(Note(l, DoResolve(id, r, now), reply), t, p)
  {
    if Admit(s, id, r, now).Fresh? {
      ResolveKeepsFrame(s, id, r, now);
      ResolveCache(s, id, r, now);
      NewRequestIsFresh(s, id, r, now);
      var (t, reply) := ResolveEstimate(s, id, r, now);
      hide Admit, Inv, ResolveEstimate, SameFrame, DoneMatches;
      DoneGrows(l, s, id, r, reply.result);
      TalliesFrame(l, s, t, p, if reply.result.accepted then l.done + {(ResolveOp, id)} else l.done);
      hide Tallies;
      assert l.(done := l.done) == l;
    } else {
      ReplayTallies(l, s, p, id, r, now);
      hide Inv, Tallies, ResolveBody;
      if Admit(s, id, r, now).Settled? && Admit(s, id, r, now).result.accepted {
        assert l.done + {(ResolveOp, id)} == l.done;
      }
    }
  }

  lemma EventTallies(l: Ledger, s: State, p: Profile, e: RuleEvent, now: nat)
    requires Inv(s) && Tallies(l, s, p)
    ensures Tallies(Note(l, DoEvent(e, now), ResolveEvent(s, e, now).1), ResolveEvent(s, e, now).0, p)
  {
    EventKeepsFrame(s, e, now);
    assert !ResolveEvent(s, e, now).1.Snapshot?;
    hide ResolveEvent, Inv, SameFrame;
    TalliesFrame(l, s, ResolveEvent(s, e, now).0, p, l.done);
    assert l.(done := l.done) == l;
  }

  lemma AckTallies(l: Ledger, s: State, p: Profile, id: Id, acks: set<Effect>)
    requires Tallies(l, s, p)
    ensures Tallies(l, AcknowledgeReset(s, id, acks).0, p) && Tallies(l, AcknowledgeLocalization(s, id, acks).0, p)
  {
    hide Append, DoneMatches, ZoneShown;
  }

  lemma LocalizationTallies(l: Ledger, s: State, p: Profile, epoch: Id)
    requires Inv(s) && Tallies(l, s, p)
    ensures Tallies(Note(l, DoLocalization(epoch), ChangeLocalization(s, epoch).1), ChangeLocalization(s, epoch).0, p)
  {
    LocalizationExactly(s, epoch);
    hide ChangeLocalization, Inv, DoneMatches, ZoneShown;
  }

  lemma SnapshotTallies(l: Ledger, s: State, p: Profile, now: nat)
    requires Tallies(l, s, p)
    ensures Tallies(Note(l, DoSnapshot(now), TakeSnapshot(s, now).1), TakeSnapshot(s, now).0, p)
  {
    AdvanceFrame(s, now);
    AdvanceForward(s, now);
    hide Advance, DoneMatches, ZoneShown;
  }

  lemma StepTallies(l: Ledger, s: State, p: Profile, op: Op)
    requires Inv(s) && Tallies(l, s, p) && WellTyped(op)
    ensures Tallies(Note(l, op, Step(s, op).1), Step(s, op).0, p)
  {
    hide Tallies, Inv, Append, Advance, ResolveEvent, TakeSnapshot, ChangeLocalization;
    match op
    case DoStart(id, r, now) => StartTallies(l, s, p, id, r, now);
    case DoZone(id, r, now) => ZoneTallies(l, s, p, id, r, now);
    case DoEvent(e, now) => EventTallies(l, s, p, e, now);
    case DoResolve(id, r, now) => ResolveTallies(l, s, p, id, r, now);
    case DoReset(id, r, newId, now) => ResetTallies(l, s, p, id, r, newId, now);
    case DoAckReset(id, acks) => AckTallies(l, s, p, id, acks);
    case DoLocalization(epoch) => LocalizationTallies(l, s, p, epoch);
    case DoAckLocalization(id, acks) => AckTallies(l, s, p, id, acks);
    case DoClock(epoch, newId, now) => ClockTallies(l, s, p, epoch, newId, now);
    case DoSnapshot(now) => SnapshotTallies(l, s, p, now);
  }

  lemma ClockTallies(l: Ledger, s: State, p: Profile, epoch: Id, newId: Id, now: nat)
    requires Inv(s) && Tallies(l, s, p)
    ensures var (t, reply) := ChangeClock(s, epoch, newId, now);
            Tallies(Note(l, DoClock(epoch, newId, now), reply), t, p)
  {
    ClockExactly(s, epoch, newId, now);
    hide Append, Inv;
  }

  lemma {:induction false} NotesTally(s0: State, ops: seq<Op>, p: Profile)
    requires Inv(s0) && AllTyped(ops) && s0.profile == p
    requires s0.phase.Init? && s0.zones == map[] && s0.operations == map[]
    ensures Tallies(Notes(s0, ops), Run(s0, ops), p)
  {
    if ops != [] {
      var n := |ops| - 1;
      NotesTally(s0, ops[..n], p);
      RunInv(s0, ops[..n]);
      hide Step, Inv, Tallies, Note;
      StepTallies(Notes(s0, ops[..n]), Run(s0, ops[..n]), p, ops[n]);
    }
  }

  /** The id of the zone noted for a purpose, if it is an accepted one. */
  function AcceptedId(zone: Option<GoalZone>): Option<Id> {
    if zone.Some? && zone.value.status.Accepted? then Some(zone.value.zoneId) else None
  }

  /** Over every run from a new manager, a snapshot shows exactly what the accepted calls
      said: stage id, number, role and epochs, the window from the official start stamp,
      and the accepted zones recorded last for each purpose; it is stamped with the time
      asked for, valid for the lease and numbered in order. */
  lemma SnapshotShows(p: Profile, stageId: Id, stageNumber: nat, role: Role, ops: seq<Op>, now: nat)
    requires ValidProfile(p) && stageNumber <= 255 && AllTyped(ops)
    requires TakeSnapshot(Run(Initial(p, stageId, stageNumber, role), ops), now).1.Snapshot?
    ensures var s0 := Initial(p, stageId, stageNumber, role);
            var l := Notes(s0, ops);
            var (t, reply) := TakeSnapshot(Run(s0, ops), now);
            var m := reply.state;
            && m.seqNo == l.snapshots + 1 && m.stamp == now && m.validUntil == now + p.leaseDuration
            && m.stageId == l.stageId && m.stageNumber == l.stageNumber && m.role == l.role
            && m.clockEpoch == l.clockEpoch && m.localizationEpoch == l.localizationEpoch
            && (l.started.None? <==> m.phase.Init?)
            && (l.started.Some? ==>
                 && m.started == l.started.value && m.freezeEnd == l.started.value + p.freezeDuration
                 && m.stageEnd == l.started.value + p.stageDuration
                 && (!m.phase.Terminal? ==> m.phase == if now < m.freezeEnd then Freeze else Active))
            && m.ownZone == AcceptedId(l.own) && m.targetZone == AcceptedId(l.target)
            && m.phase == t.phase && m.hold == t.latch.hold
            && m.terminalKind == t.latch.kind && m.terminalEvidence == t.latch.evidence
  {
    var s0 := Initial(p, stageId, stageNumber, role);
    InitialInv(p, stageId, stageNumber, role);
    RunInv(s0, ops);
    NotesTally(s0, ops, p);
    ShownNow(Notes(s0, ops), Run(s0, ops), p, now);
    hide Run, Notes, Inv, TakeSnapshot;
  }

  lemma ShownNow(l: Ledger, s: State, p: Profile, now: nat)
    requires Inv(s) && Tallies(l, s, p) && TakeSnapshot(s, now).1.Snapshot?
    ensures var (t, reply) := TakeSnapshot(s, now);
            var m := reply.state;
            && m.seqNo == l.snapshots + 1 && m.stamp == now && m.validUntil == now + p.leaseDuration
            && m.stageId == l.stageId && m.stageNumber == l.stageNumber && m.role == l.role
            && m.clockEpoch == l.clockEpoch && m.localizationEpoch == l.localizationEpoch
            && (l.started.None? <==> m.phase.Init?)
            && (l.started.Some? ==>
                 && m.started == l.started.value && m.freezeEnd == l.started.value + p.freezeDuration
                 && m.stageEnd == l.started.value + p.stageDuration
                 && (!m.phase.Terminal? ==> m.phase == if now < m.freezeEnd then Freeze else Active))
            && m.ownZone == AcceptedId(l.own) && m.targetZone == AcceptedId(l.target)
            && m.phase == t.phase && m.hold == t.latch.hold
            && m.terminalKind == t.latch.kind && m.terminalEvidence == t.latch.evidence
  {
    AdvanceExactly(s, now);
    hide Advance, StoreOk, LatchOk, BooksOk, DoneMatches;
  }

  // -------------------------------------------------------- acknowledgements

  /** A barrier that was never raised holds no acknowledgement, one that was holds those
      seen since. */
  ghost predicate AcksMatch(b: Barrier, seen: bool, acks: set<Effect>) {
    b.acks == if seen then acks else {}
  }

  ghost predicate AcksTally(h: History, s: State) {
    && Matches(h, s) && AcksMatch(s.reset, h.resetSeen, h.resetAcks) && AcksMatch(s.epoch, h.epochSeen, h.epochAcks)
  }

  lemma AckResetTallies(h: History, s: State, id: Id, acks: set<Effect>)
    requires AcksTally(h, s)
    ensures AcksTally(Observe(h, s, DoAckReset(id, acks)), AcknowledgeReset(s, id, acks).0)
  {
    AckResetMatches(h, s, id, acks);
    hide Append, IdsMatch;
    if id == s.stageId && acks <= RESET_ACKS && !s.reset.pending && h.resetSeen {
      assert h.resetAcks + acks == RESET_ACKS;
    }
  }

  lemma AckLocalizationTallies(h: History, s: State, id: Id, acks: set<Effect>)
    requires AcksTally(h, s)
    ensures AcksTally(Observe(h, s, DoAckLocalization(id, acks)), AcknowledgeLocalization(s, id, acks).0)
  {
    AckLocalizationMatches(h, s, id, acks);
    hide Append, IdsMatch;
    if id == s.stageId && acks <= EPOCH_ACKS && !s.epoch.pending && h.epochSeen {
      assert h.epochAcks + acks == EPOCH_ACKS;
    }
  }

  lemma RaisedAcksTally(h: History, s: State, op: Op)
    requires AcksTally(h, s) && Inv(s) && WellTyped(op) && (op.DoReset? || op.DoClock? || op.DoLocalization?)
    ensures AcksTally(Observe(h, s, op), Step(s, op).0)
  {
    ObserveMatches(h, s, op);
    match op
    case DoReset(id, r, newId, now) => ResetMoves(s, id, r, newId, now); hide ResetStage, Inv, Matches;
    case DoClock(epoch, newId, now) => ClockExactly(s, epoch, newId, now); hide ChangeClock, Inv, Matches;
    case DoLocalization(epoch) => LocalizationExactly(s, epoch); hide ChangeLocalization, Inv, Matches;
  }

  lemma QuietAcksTally(h: History, s: State, op: Op)
    requires AcksTally(h, s) && Inv(s) && WellTyped(op)
    requires op.DoStart? || op.DoZone? || op.DoEvent? || op.DoResolve? || op.DoSnapshot?
    ensures AcksTally(Observe(h, s, op), Step(s, op).0)
  {
    ObserveMatches(h, s, op);
    QuietStep(s, op);
    hide Step, Inv, Matches;
  }

  lemma {:induction false} WatchTallies(s: State, ops: seq<Op>)
    requires Inv(s) && AllTyped(ops) && s.reset == Barrier(false, {}) && s.epoch == Barrier(false, {})
    ensures AcksTally(Watch(s, ops), Run(s, ops))
  {
    if ops != [] {
      var n := |ops| - 1;
      WatchTallies(s, ops[..n]);
      RunInv(s, ops[..n]);
      var h, t, op := Watch(s, ops[..n]), Run(s, ops[..n]), ops[n];
      hide Step, Inv, AcksTally, Observe;
      match op
      case DoAckReset(id, acks) => AckResetTallies(h, t, id, acks); AckSteps(t, id, acks);
      case DoAckLocalization(id, acks) => AckLocalizationTallies(h, t, id, acks); AckSteps(t, id, acks);
      case DoReset(_, _, _, _) => RaisedAcksTally(h, t, op);
      case DoClock(_, _, _) => RaisedAcksTally(h, t, op);
      case DoLocalization(_) => RaisedAcksTally(h, t, op);
      case _ => QuietAcksTally(h, t, op);
    }
  }

  lemma AckSteps(s: State, id: Id, acks: set<Effect>)
    ensures Step(s, DoAckReset(id, acks)) == AcknowledgeReset(s, id, acks)
    ensures Step(s, DoAckLocalization(id, acks)) == AcknowledgeLocalization(s, id, acks)
  {
    hide AcknowledgeReset, AcknowledgeLocalization;
  }

  /** What an acknowledgement of some effects is answered, of all those that count, when
      they were called for and these have arrived since. */
  function AckReply(current: bool, acks: set<Effect>, all: set<Effect>, called: bool, arrived: set<Effect>): Reply {
    if !current then Acknowledged(false)
    else if exists a :: a in acks && a !in all then Raised(UnknownAcknowledgement)
    else Acknowledged(called && arrived + acks == all)
  }

  /** Over every run from a new manager, an acknowledgement completes exactly when a
      reset, or localization change, called for it and with it all effects have been
      acknowledged for the current stage since. */
  lemma AcknowledgedExactly(p: Profile, stageId: Id, stageNumber: nat, role: Role, ops: seq<Op>,
                            id: Id, acks: set<Effect>)
    requires ValidProfile(p) && stageNumber <= 255 && AllTyped(ops)
    ensures var s0 := Initial(p, stageId, stageNumber, role);
            var h, t := Watch(s0, ops), Run(s0, ops);
            var current := id == h.stageIds[|h.stageIds| - 1];
            && AcknowledgeReset(t, id, acks).1 == AckReply(current, acks, RESET_ACKS, h.resetSeen, h.resetAcks)
            && AcknowledgeLocalization(t, id, acks).1 == AckReply(current, acks, EPOCH_ACKS, h.epochSeen, h.epochAcks)
  {
    var s0 := Initial(p, stageId, stageNumber, role);
    InitialInv(p, stageId, stageNumber, role);
    WatchTallies(s0, ops);
    AckReplies(Watch(s0, ops), Run(s0, ops), id, acks);
    hide Run, Watch, AcknowledgeReset, AcknowledgeLocalization, Inv;
  }

  lemma AckReplies(h: History, s: State, id: Id, acks: set<Effect>)
    requires AcksTally(h, s)
    ensures AcknowledgeReset(s, id, acks).1 == AckReply(id == s.stageId, acks, RESET_ACKS, h.resetSeen, h.resetAcks)
    ensures AcknowledgeLocalization(s, id, acks).1 ==
            AckReply(id == s.stageId, acks, EPOCH_ACKS, h.epochSeen, h.epochAcks)
    ensures s.stageId == h.stageIds[|h.stageIds| - 1]
  {
    hide Append;
    if acks <= RESET_ACKS && !s.reset.pending && h.resetSeen { assert h.resetAcks + acks == RESET_ACKS; }
    if acks <= EPOCH_ACKS && !s.epoch.pending && h.epochSeen { assert h.epochAcks + acks == EPOCH_ACKS; }
  }

  // ------------------------------------------------------------------ journal

  /** The newest journal record is this one. */
  predicate Newest(s: State, op: AuditOp, subject: Option<Id>, now: nat, accepted: bool, reason: Reason) {
    && s.journal.records != []
    && s.journal.records[|s.journal.records| - 1] ==
       AuditRecord(s.journal.issued, now, op, subject, s.stageId, s.phase, accepted, reason)
  }

  lemma LogIsNewest(s: State, op: AuditOp, subject: Option<Id>, accepted: bool, reason: Reason)
    ensures Newest(Log(s, op, subject, accepted, reason), op, subject, s.lastNow, accepted, reason)
  {
  }

  lemma BodyKeepsTime(s: State, r: Request, now: nat)
    requires r.ResolveRequest?
    ensures ResolveBody(s, r, now).0.lastNow == s.lastNow
  {
    hide Relatch;
  }

  lemma RememberNewest(s: State, id: Id, r: Request, result: RequestResult)
    ensures Newest(Remember(s, id, r, result), Requested(OperationOf(r)), Some(id), s.lastNow,
                   result.accepted, result.reason)
  {
    LogIsNewest(s.(operations := s.operations[(OperationOf(r), id) := OperationRecord(r, result)]),
                Requested(OperationOf(r)), Some(id), result.accepted, result.reason);
    hide Append, Newest;
  }

  /** The step answers and journals the answer last. */
  ghost predicate Journalled(t: State, reply: Reply, op: AuditOp, id: Id, now: nat) {
    reply.Answer? && Newest(t, op, Some(id), now, reply.result.accepted, reply.result.reason)
  }

  lemma AdmittedAt(s: State, id: Id, r: Request, now: nat)
    requires Admit(s, id, r, now).Fresh?
    ensures Admit(s, id, r, now).state.lastNow == now
  {
    hide Append;
  }

  /** A new zone, decision or reset request is journalled last, with the answer given. */
  lemma ZoneIsJournaled(s: State, id: Id, r: Request, now: nat)
    requires r.ZoneRequest? && Admit(s, id, r, now).Fresh?
    ensures Journalled(SetGoalZone(s, id, r, now).0, SetGoalZone(s, id, r, now).1, Requested(ZoneOp), id, now)
  {
    AdmittedAt(s, id, r, now);
    var (u, result) := ZoneBody(Admit(s, id, r, now).state, r, now);
    assert u.lastNow == now;
    hide Admit, ZoneBody, Append, Remember, Newest;
    RememberNewest(u, id, r, result);
  }

  lemma DecisionIsJournaled(s: State, id: Id, r: Request, now: nat)
    requires r.ResolveRequest? && Admit(s, id, r, now).Fresh?
    ensures var (t, reply) := ResolveEstimate(s, id, r, now); Journalled(t, reply, Requested(ResolveOp), id, now)
  {
    AdmittedAt(s, id, r, now);
    BodyKeepsTime(Admit(s, id, r, now).state, r, now);
    hide Admit, ResolveBody, Append, Remember, Newest;
    var (u, result) := ResolveBody(Admit(s, id, r, now).state, r, now);
    RememberNewest(u, id, r, result);
  }

  lemma ResetIsJournaled(s: State, id: Id, r: Request, newId: Id, now: nat)
    requires r.ResetRequest? && 0 <= r.stageNumber <= 255 && Admit(s, id, r, now).Fresh?
    ensures var (t, reply) := ResetStage(s, id, r, newId, now); Journalled(t, reply, Requested(ResetOp), id, now)
  {
    AdmittedAt(s, id, r, now);
    var (u, result) := ResetBody(Admit(s, id, r, now).state, r, newId);
    assert u.lastNow == now;
    hide Admit, ResetBody, Append, Remember, Newest;
    RememberNewest(u, id, r, result);
  }

  lemma AdvancedTime(s: State, now: nat)
    ensures Advance(s, now).lastNow == now
  {
    hide Append;
  }

  /** Every event not yet on record is journalled last, with the answer given. */
  lemma EventIsJournaled(s: State, e: RuleEvent, now: nat)
    requires e.id !in s.store.ids && s.lastNow <= now
    ensures Journalled(ResolveEvent(s, e, now).0, ResolveEvent(s, e, now).1, RuleEventOp, e.id,
                       if |s.store.ids| < s.profile.maxEvents then now else s.lastNow)
  {
    hide CheckEvent, Advance, Newest, Log;
    if |s.store.ids| >= s.profile.maxEvents {
      LogIsNewest(s, RuleEventOp, Some(e.id), false, CapacityExhausted);
    } else {
      var (t, result) := CheckEvent(s, e, now);
      var u := Advance(t, now);
      AdvancedTime(t, now);
      LogIsNewest(if result.accepted then u.(store := u.store.(ids := u.store.ids[e.id := e])) else u,
                  RuleEventOp, Some(e.id), result.accepted, result.reason);
    }
  }
}
