/** The invariant every stage operation keeps, and what it says of snapshots. */
module StageInvariant {
  import opened Adjudication
  import opened Options
  import opened StageModel

  // ---------------------------------------------------------- the invariant

  ghost predicate WindowOk(p: Profile, phase: Phase, w: Window) {
    && ValidProfile(p)
    && (if phase.Init? then w == NO_WINDOW
        else w.freezeEnd == w.started + p.freezeDuration && w.stageEnd == w.started + p.stageDuration)
  }

  /** A stored event: recorded under its id, proven true, and certainly inside
      the active window of this stage, no later than `now`. */
  ghost predicate Stored(stageId: Id, p: Profile, w: Window, ids: map<Id, RuleEvent>, e: RuleEvent, now: nat) {
    && e.id in ids && ids[e.id] == e
    && e.truth.True?
    && e.stageId == stageId && e.clockEpoch == p.clockEpoch
    && w.freezeEnd <= e.lower && e.upper < w.stageEnd && e.upper <= now
  }

  ghost predicate StoreOk(stageId: Id, p: Profile, w: Window, store: Store, now: nat) {
    && (forall e :: e in store.official ==> Stored(stageId, p, w, store.ids, e, now) && !e.evidence.Estimate?)
    && (forall e :: e in store.pending ==>
          Stored(stageId, p, w, store.ids, e, now) && e.evidence.Estimate? && e.kind != OfficialAbort
          && e.localizationEpoch == p.localizationEpoch)
    && (forall id :: id in store.ids ==>
          store.ids[id].id == id && (!store.ids[id].evidence.Estimate? ==> store.ids[id] in store.official))
    && DistinctIds(store.official) && DistinctIds(store.pending)
    && |store.ids| <= p.maxEvents
  }

  ghost predicate KindSupported(kind: TerminalKind, official: seq<RuleEvent>) {
    kind == Capture || kind == Arrival ==> exists e :: e in official && e.kind == kind
  }

  /** The latch fits the phase before an adjudication ... */
  ghost predicate Latchable(phase: Phase, l: Latch, store: Store) {
    && !phase.Init?
    && (phase.Terminal? <==> l.kind != NoKind)
    && (phase.Terminal? ==> (l.hold <==> l.kind == Ambiguous) && l.held.None?)
    && (store.official == [] ==> KindSupported(l.kind, store.official))
    && (phase.Freeze? ==> |store.pending| <= 1)
  }

  /** ... and agrees with the stored events after one. */
  ghost predicate LatchOk(phase: Phase, l: Latch, store: Store) {
    && (phase.Terminal? <==> l.kind != NoKind)
    && (phase.Terminal? ==> (l.hold <==> l.kind == Ambiguous) && l.held.None?)
    && (!phase.Terminal? ==> store.official == [])
    && (phase.Init? ==> !l.hold && store == NO_EVENTS)
    && (phase.Freeze? && l.hold ==> store.pending != [])
    && (!phase.Terminal? && store.pending != [] ==> l.hold)
    && (l.held.Some? ==> l.hold && store.pending == [l.held.value])
    && (!phase.Terminal? && |store.pending| == 1 ==> l.held == Some(store.pending[0]))
    && KindSupported(l.kind, store.official)
  }

  ghost predicate TimeoutOk(l: Latch, w: Window, now: nat) {
    l.kind == Timeout ==> now >= w.stageEnd
  }

  ghost predicate JournalOk(j: Journal, capacity: nat) {
    && |j.records| <= capacity
    && j.dropped + |j.records| == j.issued
    && forall i :: 0 <= i < |j.records| ==> j.records[i].sequence == j.dropped + i + 1
  }

  ghost predicate CacheOk(operations: map<(Operation, Id), OperationRecord>, limit: nat) {
    && |operations| <= limit
    && forall k :: k in operations ==> k.0 == OperationOf(operations[k].request)
  }

  ghost predicate IdentityOk(stageId: Id, used: set<Id>, stageNumber: nat, reset: Barrier, epoch: Barrier) {
    && stageId in used
    && stageNumber <= 255
    && (reset.pending ==> reset.acks < RESET_ACKS)
    && (epoch.pending ==> epoch.acks < EPOCH_ACKS)
  }

  /** The phase is the one the clock dictates. */
  ghost predicate ClockPhase(phase: Phase, w: Window, now: nat) {
    && (phase.Freeze? ==> now < w.freezeEnd)
    && (phase.Active? ==> w.freezeEnd <= now < w.stageEnd)
  }

  ghost predicate BooksOk(s: State) {
    && CacheOk(s.operations, s.profile.maxRequests)
    && JournalOk(s.journal, s.profile.maxAudit)
    && IdentityOk(s.stageId, s.usedStageIds, s.stageNumber, s.reset, s.epoch)
  }

  /** Everything but the clock: holds inside an operation too, when the events
      stored so far lie no later than `now`. */
  ghost predicate Steady(s: State, now: nat) {
    && WindowOk(s.profile, s.phase, s.window)
    && StoreOk(s.stageId, s.profile, s.window, s.store, now)
    && LatchOk(s.phase, s.latch, s.store)
    && TimeoutOk(s.latch, s.window, s.lastNow)
    && BooksOk(s)
  }

  ghost predicate Inv(s: State) {
    Steady(s, s.lastNow) && ClockPhase(s.phase, s.window, s.lastNow)
  }

  // ------------------------------------------------------- basic movements

  lemma InitialInv(p: Profile, stageId: Id, stageNumber: nat, role: Role)
    requires ValidProfile(p) && stageNumber <= 255
    ensures Inv(Initial(p, stageId, stageNumber, role))
  {
  }

  lemma AppendKeepsJournal(j: Journal, r: AuditRecord, capacity: nat)
    requires JournalOk(j, capacity) && capacity > 0 && r.sequence == j.issued + 1
    ensures JournalOk(Append(j, r, capacity), capacity)
  {
  }

  lemma LogSteady(s: State, op: AuditOp, subject: Option<Id>, accepted: bool, reason: Reason, now: nat)
    requires Steady(s, now)
    ensures Steady(Log(s, op, subject, accepted, reason), now)
  {
    AppendKeepsJournal(s.journal,
      AuditRecord(s.journal.issued + 1, s.lastNow, op, subject, s.stageId, s.phase, accepted, reason),
      s.profile.maxAudit);
  }

  lemma LogInv(s: State, op: AuditOp, subject: Option<Id>, accepted: bool, reason: Reason)
    requires Inv(s)
    ensures Inv(Log(s, op, subject, accepted, reason))
  {
    LogSteady(s, op, subject, accepted, reason, s.lastNow);
  }

  lemma StoreLater(stageId: Id, p: Profile, w: Window, store: Store, now: nat, later: nat)
    requires StoreOk(stageId, p, w, store, now) && now <= later
    ensures StoreOk(stageId, p, w, store, later)
  {
  }

  lemma AdvanceInv(s: State, now: nat)
    requires Steady(s, now) && s.lastNow <= now
    requires s.phase.Active? ==> s.window.freezeEnd <= now
    ensures Inv(Advance(s, now))
  {
    var t := s.(lastNow := now);
    var u := t.(phase := Terminal, latch := Latch(false, None, Timeout, Estimate));
    if (t.phase.Freeze? || t.phase.Active?) && now >= t.window.stageEnd {
      LogSteady(u, DeadlineTransition, None, true, DeadlineReached, now);
    } else if t.phase.Freeze? && now >= t.window.freezeEnd {
      LogSteady(t.(phase := Active), PhaseTransition, None, true, FreezeElapsed, now);
    }
  }

  lemma AdvanceKeepsInv(s: State, now: nat)
    requires Inv(s) && s.lastNow <= now
    ensures Inv(Advance(s, now)) && Advance(s, now).lastNow == now
  {
    StoreLater(s.stageId, s.profile, s.window, s.store, s.lastNow, now);
    AdvanceInv(s, now);
  }

  lemma AdmitInv(s: State, id: Id, r: Request, now: nat)
    requires Inv(s)
    ensures Admit(s, id, r, now).Settled? ==> Inv(Admit(s, id, r, now).state)
    ensures Admit(s, id, r, now).Fresh? ==>
              Inv(Admit(s, id, r, now).state) && Admit(s, id, r, now).state.lastNow == now
              && Unseen(Admit(s, id, r, now).state, id, r)
  {
    if s.lastNow <= now {
      AdvanceKeepsInv(s, now);
      var t := Advance(s, now);
      var key := (OperationOf(r), id);
      if key !in t.operations {
        if |t.operations| >= t.profile.maxRequests {
          LogInv(t, Requested(OperationOf(r)), Some(id), false, CapacityExhausted);
        }
      } else if t.operations[key].request != r {
        LogInv(t, Requested(OperationOf(r)), Some(id), false, PayloadMismatch);
      }
    }
  }

  /** The request id is new and there is room to remember it. */
  predicate Unseen(s: State, id: Id, r: Request) {
    (OperationOf(r), id) !in s.operations && |s.operations| < s.profile.maxRequests
  }

  lemma RememberSteady(s: State, id: Id, r: Request, result: RequestResult, now: nat)
    requires Steady(s, now)
    requires Unseen(s, id, r)
    ensures Steady(Remember(s, id, r, result), now)
  {
    var t := s.(operations := s.operations[(OperationOf(r), id) := OperationRecord(r, result)]);
    LogSteady(t, Requested(OperationOf(r)), Some(id), result.accepted, result.reason, now);
  }

  lemma RememberInv(s: State, id: Id, r: Request, result: RequestResult, now: nat)
    requires Inv(s) && Unseen(s, id, r) && s.lastNow == now
    ensures Inv(Remember(s, id, r, result))
  {
    RememberSteady(s, id, r, result, now);
  }

  /** A request body keeps the invariant apart from the clock, and leaves the
      cache, the profile and the clock alone. */
  ghost predicate BodyOk(s: State, u: State, now: nat) {
    Steady(u, now) && u.operations == s.operations && u.profile == s.profile && u.lastNow == s.lastNow
  }

  // ------------------------------------------------------ start and zones

  lemma StartBodyOk(s: State, r: Request, now: nat)
    requires Inv(s) && s.lastNow == now && r.StartRequest?
    ensures BodyOk(s, StartBody(s, r, now).0, now)
    ensures if StartBody(s, r, now).1.accepted then StartBody(s, r, now).0.phase.Freeze?
            else StartBody(s, r, now).0 == s
  {
    if StartBody(s, r, now).1.accepted {
      var u := StartBody(s, r, now).0;
      assert StoreOk(u.stageId, u.profile, u.window, NO_EVENTS, now);
      assert LatchOk(u.phase, u.latch, u.store);
    }
  }

  lemma StartInv(s: State, id: Id, r: Request, now: nat)
    requires Inv(s) && r.StartRequest?
    ensures Inv(StartStage(s, id, r, now).0)
  {
    AdmitInv(s, id, r, now);
    var a := Admit(s, id, r, now);
    if a.Fresh? {
      StartBodyOk(a.state, r, now);
      var (u, result) := StartBody(a.state, r, now);
      RememberSteady(u, id, r, result, now);
      if result.accepted {
        AdvanceInv(Remember(u, id, r, result), now);
      }
    }
  }

  lemma ZoneInv(s: State, id: Id, r: Request, now: nat)
    requires Inv(s) && r.ZoneRequest?
    ensures Inv(SetGoalZone(s, id, r, now).0)
  {
    AdmitInv(s, id, r, now);
    var a := Admit(s, id, r, now);
    if a.Fresh? {
      var (u, result) := ZoneBody(a.state, r, now);
      assert u == a.state || u == a.state.(zones := u.zones);
      assert BodyOk(a.state, u, now);
      RememberInv(u, id, r, result, now);
    }
  }

  // --------------------------------------------------------- adjudication

  /** Re-adjudication makes the latch agree with the stored events. */
  lemma RelatchOk(phase: Phase, l: Latch, store: Store)
    requires Latchable(phase, l, store)
    ensures var (phase', l') := Relatch(phase, l, store);
            LatchOk(phase', l', store) && !phase'.Init?
            && (phase' != phase ==> phase'.Terminal?)
            && (l'.kind == Timeout ==> l.kind == Timeout)
  {
    if store.official == [] {
      EstimatesAloneNeverDecide(store.pending);
    } else {
      AmbiguousIffRivals(store.official, store.pending);
    }
  }

  lemma TerminalizeSteady(s: State, now: nat)
    requires WindowOk(s.profile, s.phase, s.window) && BooksOk(s)
    requires StoreOk(s.stageId, s.profile, s.window, s.store, now)
    requires Latchable(s.phase, s.latch, s.store)
    requires TimeoutOk(s.latch, s.window, s.lastNow)
    ensures Steady(Terminalize(s), now)
  {
    RelatchOk(s.phase, s.latch, s.store);
  }

  lemma AddPending(stageId: Id, p: Profile, w: Window, store: Store, e: RuleEvent, now: nat)
    requires StoreOk(stageId, p, w, store, now) && e.id !in store.ids && |store.ids| < p.maxEvents
    requires Stored(stageId, p, w, map[e.id := e], e, now)
    requires e.evidence.Estimate? && e.kind != OfficialAbort && e.localizationEpoch == p.localizationEpoch
    ensures StoreOk(stageId, p, w, Store(store.official, store.pending + [e], store.ids[e.id := e]), now)
  {
  }

  lemma AddOfficial(stageId: Id, p: Profile, w: Window, store: Store, e: RuleEvent, now: nat)
    requires StoreOk(stageId, p, w, store, now) && e.id !in store.ids && |store.ids| < p.maxEvents
    requires Stored(stageId, p, w, map[e.id := e], e, now) && !e.evidence.Estimate?
    ensures StoreOk(stageId, p, w, Store(store.official + [e], store.pending, store.ids[e.id := e]), now)
  {
    assert (store.official + [e])[|store.official|] == e;
  }

  function Register(s: State, e: RuleEvent): State {
    s.(store := s.store.(ids := s.store.ids[e.id := e]))
  }

  /** The latch just before an estimate is adjudicated. */
  function HoldLatch(s: State, e: RuleEvent, now: nat): Latch {
    var localHold := s.phase.Active? && now < s.window.stageEnd;
    s.latch.(hold := s.latch.hold || localHold,
             held := if localHold then OnlyOne(s.store.pending + [e]) else None)
  }

  lemma LatchEstimateIs(s: State, e: RuleEvent, now: nat)
    requires e.evidence.Estimate?
    ensures var store := Store(s.store.official, s.store.pending + [e], s.store.ids[e.id := e]);
            Register(LatchEvent(s, e, now).0, e) == Terminalize(s.(store := store, latch := HoldLatch(s, e, now)))
  {
  }

  /** Storing an accepted event, with its id recorded, keeps the state steady. */
  lemma LatchEstimateSteady(s: State, e: RuleEvent, now: nat)
    requires Steady(s, now) && !s.phase.Init? && (s.phase.Freeze? ==> s.store.pending == [])
    requires EventRefusal(s, e, now).None? && KindRefusal(s, e).None? && e.evidence.Estimate?
    requires e.id !in s.store.ids && |s.store.ids| < s.profile.maxEvents
    ensures Steady(Register(LatchEvent(s, e, now).0, e), now)
  {
    AddPending(s.stageId, s.profile, s.window, s.store, e, now);
    var latch := HoldLatch(s, e, now);
    var store := Store(s.store.official, s.store.pending + [e], s.store.ids[e.id := e]);
    assert Latchable(s.phase, latch, store);
    TerminalizeSteady(s.(store := store, latch := latch), now);
    LatchEstimateIs(s, e, now);
  }

  lemma LatchOfficialSteady(s: State, e: RuleEvent, now: nat)
    requires Steady(s, now) && !s.phase.Init? && (s.phase.Freeze? ==> s.store.pending == [])
    requires EventRefusal(s, e, now).None? && KindRefusal(s, e).None? && !e.evidence.Estimate?
    requires e.id !in s.store.ids && |s.store.ids| < s.profile.maxEvents
    ensures Steady(Register(LatchEvent(s, e, now).0, e), now)
  {
    AddOfficial(s.stageId, s.profile, s.window, s.store, e, now);
    var store := Store(s.store.official + [e], s.store.pending, s.store.ids[e.id := e]);
    RelatchOk(s.phase, s.latch, store);
    assert Register(LatchEvent(s, e, now).0, e) == Terminalize(s.(store := store));
  }

  lemma EmptyIfNoMember(p: seq<RuleEvent>)
    ensures (forall e :: e !in p) ==> p == []
  {
    if p != [] { assert p[0] in p; }
  }

  /** In FREEZE nothing can be pending: a pending event would prove the freeze over. */
  lemma FreezeHasNoPending(s: State)
    requires Inv(s) && s.phase.Freeze?
    ensures s.store.pending == [] && !s.latch.hold
  {
    EmptyIfNoMember(s.store.pending);
  }

  lemma CheckEventSteady(s: State, e: RuleEvent, now: nat)
    requires Inv(s) && s.lastNow <= now
    requires e.id !in s.store.ids && |s.store.ids| < s.profile.maxEvents
    ensures var (t, result) := CheckEvent(s, e, now);
            && Steady(if result.accepted then Register(t, e) else t, now)
            && t.lastNow == s.lastNow
            && (t.phase.Active? ==> t.window.freezeEnd <= now)
  {
    StoreLater(s.stageId, s.profile, s.window, s.store, s.lastNow, now);
    if EventRefusal(s, e, now).None? {
      OpenStageSteady(s, now);
      var t := OpenStage(s, now);
      if KindRefusal(t, e).None? {
        if e.evidence.Estimate? { LatchEstimateSteady(t, e, now); } else { LatchOfficialSteady(t, e, now); }
        LatchEventFrame(t, e, now);
      }
    }
  }

  lemma OpenStageSteady(s: State, now: nat)
    requires Inv(s) && s.lastNow <= now
    ensures var t := OpenStage(s, now);
            Steady(t, now) && t.store == s.store && t.window == s.window && t.stageId == s.stageId
            && t.profile == s.profile && t.lastNow == s.lastNow
            && (t.phase.Init? <==> s.phase.Init?)
            && (t.phase.Freeze? ==> t.store.pending == [])
            && (t.phase.Active? ==> t.window.freezeEnd <= now)
  {
    StoreLater(s.stageId, s.profile, s.window, s.store, s.lastNow, now);
    if s.phase.Freeze? {
      FreezeHasNoPending(s);
      if s.window.freezeEnd <= now < s.window.stageEnd {
        LogSteady(s.(phase := Active), PhaseTransition, None, true, FreezeElapsedBeforeAdjudication, now);
      }
    }
  }

  lemma LatchEventFrame(s: State, e: RuleEvent, now: nat)
    ensures var t := LatchEvent(s, e, now).0;
            t.lastNow == s.lastNow && t.window == s.window && (t.phase.Active? ==> s.phase.Active?)
  {
  }

  lemma EventInv(s: State, e: RuleEvent, now: nat)
    requires Inv(s)
    ensures Inv(ResolveEvent(s, e, now).0)
  {
    if now < s.lastNow {
    } else if e.id in s.store.ids {
      AdvanceKeepsInv(s, now);
      if s.store.ids[e.id] != e {
        LogInv(Advance(s, now), RuleEventOp, Some(e.id), false, PayloadMismatch);
      }
    } else if |s.store.ids| >= s.profile.maxEvents {
      LogInv(s, RuleEventOp, Some(e.id), false, CapacityExhausted);
    } else {
      NewEventInv(s, e, now);
    }
  }

  lemma NewEventInv(s: State, e: RuleEvent, now: nat)
    requires Inv(s) && s.lastNow <= now
    requires e.id !in s.store.ids && |s.store.ids| < s.profile.maxEvents
    ensures Inv(ResolveEvent(s, e, now).0)
  {
    hide Distinct;
    CheckEventSteady(s, e, now);
    var (t, result) := CheckEvent(s, e, now);
    AdvanceCommutes(t, e, now);
    if result.accepted {
      AdvanceInv(Register(t, e), now);
      LogInv(Advance(Register(t, e), now), RuleEventOp, Some(e.id), true, result.reason);
    } else {
      AdvanceInv(t, now);
      LogInv(Advance(t, now), RuleEventOp, Some(e.id), false, result.reason);
    }
  }

  lemma AdvanceCommutes(s: State, e: RuleEvent, now: nat)
    ensures Advance(Register(s, e), now) == Register(Advance(s, now), e)
  {
    hide Append;
  }

  // --------------------------------------------------- organizer decisions

  lemma {:induction false} FindPendingFinds(p: seq<RuleEvent>, id: Id)
    ensures FindPending(p, id).None? <==> forall e :: e in p ==> e.id != id
    ensures FindPending(p, id).Some? ==> FindPending(p, id).value in p && FindPending(p, id).value.id == id
  {
    if p != [] {
      FindPendingFinds(p[1..], id);
      assert forall e :: e in p <==> e == p[0] || e in p[1..];
    }
  }

  lemma {:induction false} DropPendingDrops(p: seq<RuleEvent>, id: Id)
    requires DistinctIds(p)
    ensures forall e :: e in DropPending(p, id) <==> e in p && e.id != id
    ensures DistinctIds(DropPending(p, id))
  {
    if p != [] {
      var rest := p[1..];
      DropPendingDrops(rest, id);
      assert forall e :: e in p <==> e == p[0] || e in rest;
      assert forall e :: e in rest ==> e.id != p[0].id;
      if p[0].id != id {
        DistinctPrepend(p[0], DropPending(rest, id));
      }
    }
  }

  lemma DistinctPrepend(e: RuleEvent, p: seq<RuleEvent>)
    requires DistinctIds(p) && forall x :: x in p ==> x.id != e.id
    ensures DistinctIds([e] + p)
  {
    forall i, j | 0 <= i < j < |[e] + p| ensures ([e] + p)[i].id != ([e] + p)[j].id {
      assert ([e] + p)[j] == p[j - 1] && p[j - 1] in p;
    }
  }

  lemma FindDrop(p: seq<RuleEvent>, id: Id)
    requires DistinctIds(p)
    ensures FindPending(p, id).None? <==> forall e :: e in p ==> e.id != id
    ensures FindPending(p, id).Some? ==> FindPending(p, id).value in p && FindPending(p, id).value.id == id
    ensures forall e :: e in DropPending(p, id) <==> e in p && e.id != id
    ensures DistinctIds(DropPending(p, id))
  {
    FindPendingFinds(p, id);
    DropPendingDrops(p, id);
  }

  lemma DismissStore(stageId: Id, p: Profile, w: Window, store: Store, id: Id, now: nat)
    requires StoreOk(stageId, p, w, store, now)
    ensures StoreOk(stageId, p, w, Dismissed(store, id), now)
  {
    FindDrop(store.pending, id);
  }

  lemma OfficialIdsDistinct(store: Store, c: RuleEvent)
    requires DistinctIds(store.official) && forall o :: o in store.official ==> o.id != c.id
    ensures DistinctIds(store.official + [c])
  {
    var q := store.official + [c];
    forall i, j | 0 <= i < j < |q| ensures q[i].id != q[j].id {
      assert q[i] == store.official[i] && q[i] in store.official;
    }
  }

  lemma PromoteStore(stageId: Id, p: Profile, w: Window, store: Store, e: RuleEvent, c: RuleEvent, now: nat)
    requires StoreOk(stageId, p, w, store, now) && FindPending(store.pending, e.id) == Some(e)
    requires c.id == e.id && c.evidence.Official? && Stored(stageId, p, w, map[c.id := c], c, now)
    ensures StoreOk(stageId, p, w, Promoted(store, c), now)
  {
    hide FindPending, DropPending, DistinctIds;
    FindDrop(store.pending, e.id);
    assert Stored(stageId, p, w, store.ids, e, now);
    forall o | o in store.official ensures o.id != e.id { assert Stored(stageId, p, w, store.ids, o, now); }
    OfficialIdsDistinct(store, c);
    var q := Promoted(store, c);
    assert q.ids.Keys == store.ids.Keys && |q.ids| == |q.ids.Keys| && |store.ids| == |store.ids.Keys|;
    assert q.official[|store.official|] == c;
    forall x: RuleEvent | x.id != c.id && Stored(stageId, p, w, store.ids, x, now)
      ensures Stored(stageId, p, w, q.ids, x, now) {}
    assert Stored(stageId, p, w, q.ids, c, now);
    hide Stored;
    assert forall o :: o in q.official <==> o in store.official || o == c;
  }

  lemma DecisionSteady(s: State, r: Request, now: nat)
    requires Inv(s) && s.lastNow == now && r.ResolveRequest?
    requires DecisionRefusal(s, r.eventId, r.kind, now).None?
    ensures Steady(LatchDecision(s, r.kind), now)
  {
    assert LatchOk(Terminal, LatchDecision(s, r.kind).latch, s.store);
  }

  /** Re-adjudicating after a pending estimate was dismissed or promoted. */
  lemma ReadjudicateOk(s: State, store: Store, now: nat)
    requires Inv(s) && s.lastNow == now && s.store.pending != []
    requires StoreOk(s.stageId, s.profile, s.window, store, now)
    requires s.store.official <= store.official
    ensures var u := Terminalize(s.(store := store));
            BodyOk(s, u, now) && ClockPhase(u.phase, u.window, now)
  {
    if s.phase.Freeze? { FreezeHasNoPending(s); }
    var t := s.(store := store);
    if store.official == [] { assert s.store.official == []; }
    RelatchOk(s.phase, s.latch, store);
    TerminalizeSteady(t, now);
  }

  lemma ResolveBodySteady(s: State, r: Request, now: nat)
    requires Inv(s) && s.lastNow == now && r.ResolveRequest?
    ensures BodyOk(s, ResolveBody(s, r, now).0, now)
    ensures ClockPhase(ResolveBody(s, r, now).0.phase, ResolveBody(s, r, now).0.window, now)
  {
    if r.expected != s.stageId || r.authorization != s.profile.organizer {
    } else if r.resolution.SetOfficialTerminal? {
      if DecisionRefusal(s, r.eventId, r.kind, now).None? {
        DecisionSteady(s, r, now);
      }
    } else if FindPending(s.store.pending, r.eventId).Some? {
      FindDrop(s.store.pending, r.eventId);
      var e := FindPending(s.store.pending, r.eventId).value;
      if r.resolution.DismissEstimate? {
        DismissStore(s.stageId, s.profile, s.window, s.store, e.id, now);
        ReadjudicateOk(s, Dismissed(s.store, e.id), now);
      } else if ConfirmRefusal(s, e, r.kind).None? {
        var c := Confirmed(s, e, r.authorization);
        PromoteStore(s.stageId, s.profile, s.window, s.store, e, c, now);
        ReadjudicateOk(s, Promoted(s.store, c), now);
      }
    }
  }

  lemma ResolveInv(s: State, id: Id, r: Request, now: nat)
    requires Inv(s) && r.ResolveRequest?
    ensures Inv(ResolveEstimate(s, id, r, now).0)
  {
    AdmitInv(s, id, r, now);
    var a := Admit(s, id, r, now);
    if a.Fresh? {
      ResolveBodySteady(a.state, r, now);
      var (u, result) := ResolveBody(a.state, r, now);
      RememberInv(u, id, r, result, now);
    }
  }

  // ----------------------------------------------------- resets and epochs

  lemma DisarmInv(s: State, newId: Id, stageNumber: nat, role: Role)
    requires Inv(s) && stageNumber <= 255
    ensures Inv(Disarm(s, newId).(stageNumber := stageNumber, role := role))
  {
  }

  lemma ResetBodyInv(s: State, id: Id, r: Request, newId: Id)
    requires Inv(s) && r.ResetRequest? && 0 <= r.stageNumber <= 255 && Unseen(s, id, r)
    ensures var u := ResetBody(s, r, newId).0;
            Inv(u) && Unseen(u, id, r) && u.lastNow == s.lastNow
  {
    DisarmInv(s, newId, r.stageNumber, r.role);
  }

  lemma ResetInv(s: State, id: Id, r: Request, newId: Id, now: nat)
    requires Inv(s) && r.ResetRequest?
    ensures Inv(ResetStage(s, id, r, newId, now).0)
  {
    AdmitInv(s, id, r, now);
    var a := Admit(s, id, r, now);
    if 0 <= r.stageNumber <= 255 && a.Fresh? {
      ResetBodyInv(a.state, id, r, newId);
      RememberInv(ResetBody(a.state, r, newId).0, id, r, ResetBody(a.state, r, newId).1, now);
    }
  }

  lemma AckResetInv(s: State, stageId: Id, acks: set<Effect>)
    requires Inv(s)
    ensures Inv(AcknowledgeReset(s, stageId, acks).0)
  {
    if stageId == s.stageId && acks <= RESET_ACKS && s.reset.pending {
      var all := s.reset.acks + acks;
      if all != RESET_ACKS {
        LogSteady(s.(reset := Barrier(true, all)), ResetAck, Some(stageId), false, EffectsPending, s.lastNow);
      } else {
        LogSteady(s.(reset := Barrier(false, all)), ResetAck, Some(stageId), true, EffectsAcknowledged, s.lastNow);
      }
    }
  }

  lemma AckLocalizationInv(s: State, stageId: Id, acks: set<Effect>)
    requires Inv(s)
    ensures Inv(AcknowledgeLocalization(s, stageId, acks).0)
  {
    if stageId == s.stageId && acks <= EPOCH_ACKS && s.epoch.pending {
      var all := s.epoch.acks + acks;
      if all != EPOCH_ACKS {
        LogSteady(s.(epoch := Barrier(true, all)), LocalizationAck, Some(stageId), false, EffectsPending, s.lastNow);
      } else {
        LogSteady(s.(epoch := Barrier(false, all)), LocalizationAck, Some(stageId), true, EffectsAcknowledged,
                  s.lastNow);
      }
    }
  }

  lemma CardinalityOfPart<T>(a: set<T>, b: set<T>)
    requires a <= b
    ensures |a| <= |b|
  {
    assert b == a + (b - a);
  }

  lemma RelocalizedStore(stageId: Id, p: Profile, w: Window, store: Store, epoch: Id, now: nat)
    requires StoreOk(stageId, p, w, store, now)
    ensures StoreOk(stageId, p.(localizationEpoch := epoch), w,
                    Store(store.official, [], WithoutEstimates(store.ids)), now)
  {
    var ids := WithoutEstimates(store.ids);
    assert |ids| == |ids.Keys| && |store.ids| == |store.ids.Keys|;
    CardinalityOfPart(ids.Keys, store.ids.Keys);
  }

  lemma LocalizationInv(s: State, epoch: Id)
    requires Inv(s)
    ensures Inv(ChangeLocalization(s, epoch).0)
  {
    hide Distinct;
    if epoch != s.profile.localizationEpoch {
      if s.phase.Freeze? { FreezeHasNoPending(s); }
      RelocalizedStore(s.stageId, s.profile, s.window, s.store, epoch, s.lastNow);
      if s.latch.held.Some? {
        assert s.latch.held.value == s.store.pending[0];
      }
      var latch := if s.latch.held.Some? then s.latch.(held := None, hold := false) else s.latch;
      var v := s.(profile := s.profile.(localizationEpoch := epoch),
                  store := Store(s.store.official, [], WithoutEstimates(s.store.ids)),
                  latch := latch, epoch := Barrier(true, {}));
      assert LatchOk(v.phase, v.latch, v.store);
      LogSteady(v, LocalizationChange, None, true, LocalizationChanged, s.lastNow);
    }
  }

  lemma ClockInv(s: State, epoch: Id, newId: Id, now: nat)
    requires Inv(s)
    ensures Inv(ChangeClock(s, epoch, newId, now).0)
  {
    if epoch != s.profile.clockEpoch && newId !in s.usedStageIds {
      var t := Disarm(s, newId).(profile := s.profile.(clockEpoch := epoch), operations := map[], lastNow := now);
      LogSteady(t, ClockChange, None, true, ClockChanged, now);
    }
  }

  lemma SnapshotInv(s: State, now: nat)
    requires Inv(s)
    ensures Inv(TakeSnapshot(s, now).0)
  {
    if s.lastNow <= now {
      AdvanceKeepsInv(s, now);
    }
  }

  // ----------------------------------------------------------- main results

  /** One inductive invariant is kept by every public operation. */
  lemma StepInv(s: State, op: Op)
    requires Inv(s) && WellTyped(op)
    ensures Inv(Step(s, op).0)
  {
    match op
    case DoStart(id, r, now) => StartInv(s, id, r, now);
    case DoZone(id, r, now) => ZoneInv(s, id, r, now);
    case DoEvent(e, now) => EventInv(s, e, now);
    case DoResolve(id, r, now) => ResolveInv(s, id, r, now);
    case DoReset(id, r, newId, now) => ResetInv(s, id, r, newId, now);
    case DoAckReset(stageId, acks) => AckResetInv(s, stageId, acks);
    case DoLocalization(epoch) => LocalizationInv(s, epoch);
    case DoAckLocalization(stageId, acks) => AckLocalizationInv(s, stageId, acks);
    case DoClock(epoch, newId, now) => ClockInv(s, epoch, newId, now);
    case DoSnapshot(now) => SnapshotInv(s, now);
  }

  /** A snapshot fails only for a clock that runs backwards or a lease past the
      timestamp range; otherwise the match state it builds is legal. */
  lemma SnapshotLegal(s: State, now: nat)
    requires Inv(s)
    ensures var reply := TakeSnapshot(s, now).1;
            if now < s.lastNow then reply == Raised(TimeRegression)
            else if now + s.profile.leaseDuration > MAX_STAMP then reply == Raised(LeaseOverflow)
            else reply.Snapshot? && LegalMatchState(reply.state)
  {
    if s.lastNow <= now {
      AdvanceKeepsInv(s, now);
      var t := Advance(s, now);
      if t.phase.Freeze? { FreezeHasNoPending(t); }
    }
  }

  /** What each phase means, in every state satisfying the invariant. */
  lemma PhaseMeaning(s: State)
    requires Inv(s)
    ensures s.phase.Freeze? ==> s.lastNow < s.window.freezeEnd && s.store.pending == [] && !s.latch.hold
    ensures s.phase.Active? ==> s.window.freezeEnd <= s.lastNow < s.window.stageEnd && s.store.official == []
                                && (s.store.pending != [] ==> s.latch.hold)
    ensures s.latch.kind == Timeout ==> s.phase.Terminal? && s.lastNow >= s.window.stageEnd
    ensures s.latch.kind == Capture || s.latch.kind == Arrival ==>
              exists e :: e in s.store.official && e.kind == s.latch.kind && !e.evidence.Estimate?
                          && s.window.freezeEnd <= e.lower && e.upper < s.window.stageEnd && e.upper <= s.lastNow
    ensures DistinctIds(s.store.official + s.store.pending)
    ensures forall e :: e in s.store.official + s.store.pending ==> e.id in s.store.ids && s.store.ids[e.id] == e
  {
    if s.phase.Freeze? { FreezeHasNoPending(s); }
    var all := s.store.official + s.store.pending;
    forall i, j | 0 <= i < j < |all| ensures all[i].id != all[j].id {
      if i < |s.store.official| <= j {
        assert all[i] in s.store.official && all[j] in s.store.pending;
      }
    }
  }
}
