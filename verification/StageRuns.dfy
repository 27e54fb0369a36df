/** Properties of whole runs of the stage manager: verdicts, phases, the replay
    cache, the audit journal and motion authority. */
module StageRuns {
  import opened Adjudication
  import opened Options
  import opened StageInvariant
  import opened StageModel

  ghost predicate AllTyped(ops: seq<Op>) {
    forall i :: 0 <= i < |ops| ==> WellTyped(ops[i])
  }

  function Run(s: State, ops: seq<Op>): State
    requires AllTyped(ops)
  {
    if ops == [] then s else Step(Run(s, ops[..|ops| - 1]), ops[|ops| - 1]).0
  }

  lemma {:induction false} RunInv(s: State, ops: seq<Op>)
    requires Inv(s) && AllTyped(ops)
    ensures Inv(Run(s, ops))
  {
    if ops != [] {
      RunInv(s, ops[..|ops| - 1]);
      StepInv(Run(s, ops[..|ops| - 1]), ops[|ops| - 1]);
    }
  }

  // -------------------------------------------------------------- verdicts

  function Rank(p: Phase): nat {
    match p case Init => 0 case Freeze => 1 case Active => 2 case Terminal => 3
  }

  /** With an official event on record, phase, result, evidence and hold are
      exactly the adjudication of the events now on record. */
  ghost predicate Adjudicated(s: State) {
    s.store.official != [] ==>
      && s.phase.Terminal?
      && Adjudicate(s.store.official, s.store.pending) == Decided(s.latch.kind, s.latch.evidence)
      && (s.latch.hold <==> s.latch.kind == Ambiguous)
  }

  lemma RelatchAdjudicates(phase: Phase, l: Latch, store: Store)
    ensures store.official != [] ==>
              var (phase', l') := Relatch(phase, l, store);
              phase' == Terminal && l'.hold == (l'.kind == Ambiguous)
              && Adjudicate(store.official, store.pending) == Decided(l'.kind, l'.evidence)
    ensures Rank(phase) <= Rank(Relatch(phase, l, store).0)
  {
    if store.official == [] {
      EstimatesAloneNeverDecide(store.pending);
    } else {
      AmbiguousIffRivals(store.official, store.pending);
    }
  }

  lemma TerminalizeAdjudicates(s: State)
    ensures Adjudicated(Terminalize(s))
  {
    RelatchAdjudicates(s.phase, s.latch, s.store);
  }

  lemma AdvanceKeepsTerminal(s: State, now: nat)
    requires Adjudicated(s)
    ensures Adjudicated(Advance(s, now)) && Advance(s, now).store == s.store
  {
    hide Append, Adjudicate;
  }

  /** The state handed to re-adjudication when event `e` is latched. */
  function WithEvent(s: State, e: RuleEvent, now: nat): State {
    if e.evidence.Estimate? then
      s.(store := s.store.(pending := s.store.pending + [e]), latch := HoldLatch(s, e, now))
    else s.(store := s.store.(official := s.store.official + [e]))
  }

  lemma CheckedEvent(s: State, e: RuleEvent, now: nat)
    requires CheckEvent(s, e, now).1.accepted
    ensures CheckEvent(s, e, now).0 == Terminalize(WithEvent(OpenStage(s, now), e, now))
  {
  }

  /** On hold exactly while an estimate is pending, holding it if it is the only one. */
  predicate HoldsPending(l: Latch, store: Store) {
    (l.hold <==> store.pending != []) && l.held == OnlyOne(store.pending) && l.kind == NoKind
  }

  /** With estimates alone a running stage is on hold exactly while any is pending
      and holds it if it is the only one; a terminal stage keeps its result unless
      its deadline fired just now. */
  ghost predicate Undecided(s: State, t: State) {
    && (t.phase.Active? ==> HoldsPending(t.latch, t.store))
    && (s.phase.Terminal? ==> t.phase.Terminal? && t.latch == s.latch)
    && (t.phase.Terminal? && !s.phase.Terminal? ==> t.latch == Latch(false, None, Timeout, Estimate))
    && (t.phase.Active? || t.phase.Terminal?)
  }

  lemma FewRivals(pending: seq<RuleEvent>)
    requires HasRivals(pending)
    ensures OnlyOne(pending) == None && pending != []
  {
  }

  /** Re-adjudicating estimates alone. */
  lemma RelatchUndecided(phase: Phase, l: Latch, store: Store)
    requires store.official == [] && (phase.Terminal? ==> l.held == None)
    ensures var (phase', l') := Relatch(phase, l, store);
            && phase' == phase
            && (phase.Active? ==> HoldsPending(l', store))
            && (phase.Terminal? ==> l' == l)
  {
    EstimatesAloneNeverDecide(store.pending);
    if HasRivals(store.pending) { FewRivals(store.pending); }
  }

  lemma EstimateUndecided(s: State, e: RuleEvent, now: nat)
    requires Inv(s) && s.lastNow <= now && e.id !in s.store.ids && e.evidence.Estimate? && s.store.official == []
    requires CheckEvent(s, e, now).1.accepted
    ensures Undecided(s, Advance(CheckEvent(s, e, now).0, now))
  {
    hide Append, Relatch;
    CheckedEvent(s, e, now);
    var u := WithEvent(OpenStage(s, now), e, now);
    assert u.store.official == [] && u.store.pending != [];
    RelatchUndecided(u.phase, u.latch, u.store);
  }

  /** Every newly accepted event leaves an adjudicated state. */
  lemma EventAdjudicates(s: State, e: RuleEvent, now: nat)
    requires e.id !in s.store.ids
    requires ResolveEvent(s, e, now).1.Answer? && ResolveEvent(s, e, now).1.result.accepted
    ensures Adjudicated(ResolveEvent(s, e, now).0)
    ensures var store := ResolveEvent(s, e, now).0.store;
            if e.evidence.Estimate? then store.official == s.store.official && store.pending == s.store.pending + [e]
            else store.official == s.store.official + [e] && store.pending == s.store.pending
    ensures Inv(s) && ResolveEvent(s, e, now).0.store.official == [] ==> Undecided(s, ResolveEvent(s, e, now).0)
  {
    if Inv(s) && e.evidence.Estimate? && s.store.official == [] { EstimateUndecided(s, e, now); }
    CheckedEvent(s, e, now);
    var t := Terminalize(WithEvent(OpenStage(s, now), e, now));
    TerminalizeAdjudicates(WithEvent(OpenStage(s, now), e, now));
    AdvanceKeepsTerminal(t, now);
  }

  /** The event names this stage and the current epochs and is proven. */
  predicate Addressed(s: State, e: RuleEvent) {
    e.stageId == s.stageId && e.clockEpoch == s.profile.clockEpoch
    && e.localizationEpoch == s.profile.localizationEpoch && e.truth.True?
  }

  /** Its whole interval lies in the past and inside the active window. */
  predicate Inside(s: State, e: RuleEvent, now: nat) {
    !s.phase.Init? && s.window.freezeEnd <= e.lower && e.upper < s.window.stageEnd && e.upper <= now
  }

  /** An arrival happened at the accepted target zone. */
  predicate AtTarget(s: State, e: RuleEvent) {
    e.kind == Arrival ==> Target in s.zones && s.zones[Target].status.Accepted? && e.zoneId == s.zones[Target].zoneId
  }

  /** Estimates need no authority but cannot abort or follow an official end;
      other events need the organizer, and simulator truth must be enabled. */
  predicate Warranted(s: State, e: RuleEvent) {
    if e.evidence.Estimate? then e.kind != OfficialAbort && !(s.phase.Terminal? && s.latch.evidence.Official?)
    else e.authorization == s.profile.organizer && (e.evidence.SimTruth? ==> s.profile.allowSimTruth)
  }

  /** A new event is accepted exactly when it is addressed to this stage, lies in
      the past inside the active window, and is warranted. */
  lemma EventAcceptedExactly(s: State, e: RuleEvent, now: nat)
    requires s.lastNow <= now && e.id !in s.store.ids && |s.store.ids| < s.profile.maxEvents
    ensures ResolveEvent(s, e, now).1.Answer?
    ensures ResolveEvent(s, e, now).1.result.accepted <==>
              Addressed(s, e) && Inside(s, e, now) && AtTarget(s, e) && Warranted(s, e)
  {
    hide Append, Advance, Terminalize;
    var t := OpenStage(s, now);
    assert t.zones == s.zones && t.profile == s.profile && t.window == s.window && t.latch == s.latch;
    assert t.phase.Terminal? <==> s.phase.Terminal?;
    hide OpenStage;
  }

  /** What a dismissal or confirmation does to the event store: exactly the named
      estimate leaves, and a confirmed one is recorded as official under its id. */
  ghost predicate EstimateLeft(s: State, t: State, r: Request)
    requires r.ResolveRequest?
  {
    exists i :: 0 <= i < |s.store.pending| && s.store.pending[i].id == r.eventId
      && t.store.pending == s.store.pending[..i] + s.store.pending[i + 1..]
      && if r.resolution.DismissEstimate? then t.store.official == s.store.official && t.store.ids == s.store.ids
         else var c := Confirmed(s, s.store.pending[i], r.authorization);
           t.store.official == s.store.official + [c] && t.store.ids == s.store.ids[r.eventId := c]
  }

  lemma {:induction false} DroppedAt(pending: seq<RuleEvent>, id: Id) returns (i: nat)
    requires FindPending(pending, id).Some?
    ensures i < |pending| && pending[i].id == id && FindPending(pending, id) == Some(pending[i])
    ensures DropPending(pending, id) == pending[..i] + pending[i + 1..]
  {
    if pending[0].id == id {
      i := 0;
    } else {
      i := DroppedAt(pending[1..], id);
      i := i + 1;
    }
  }

  lemma DecisionStore(s: State, r: Request, now: nat)
    requires r.ResolveRequest? && !r.resolution.SetOfficialTerminal?
    requires ResolveBody(s, r, now).1.accepted
    ensures EstimateLeft(s, ResolveBody(s, r, now).0, r)
  {
    hide Relatch, FindPending, DropPending;
    var i := DroppedAt(s.store.pending, r.eventId);
  }

  lemma DecisionUndecided(s: State, r: Request, now: nat)
    requires r.ResolveRequest? && !r.resolution.SetOfficialTerminal? && Inv(s)
    requires ResolveBody(s, r, now).1.accepted
    ensures ResolveBody(s, r, now).0.store.official == [] ==> Undecided(s, ResolveBody(s, r, now).0)
  {
    hide Relatch;
    var i := DroppedAt(s.store.pending, r.eventId);
    if s.phase.Freeze? { FreezeHasNoPending(s); }
    if r.resolution.DismissEstimate? && s.store.official == [] {
      RelatchUndecided(s.phase, s.latch, Dismissed(s.store, r.eventId));
    }
  }

  /** So does every dismissal or confirmation the organizer makes. */
  lemma DecisionAdjudicates(s: State, r: Request, now: nat)
    requires r.ResolveRequest? && !r.resolution.SetOfficialTerminal?
    requires ResolveBody(s, r, now).1.accepted
    ensures Adjudicated(ResolveBody(s, r, now).0)
    ensures EstimateLeft(s, ResolveBody(s, r, now).0, r)
    ensures Inv(s) && ResolveBody(s, r, now).0.store.official == [] ==> Undecided(s, ResolveBody(s, r, now).0)
  {
    DecisionStore(s, r, now);
    if Inv(s) { DecisionUndecided(s, r, now); }
    hide Relatch, EstimateLeft, Undecided, Inv;
    var e := FindPending(s.store.pending, r.eventId).value;
    if r.resolution.DismissEstimate? {
      TerminalizeAdjudicates(s.(store := Dismissed(s.store, r.eventId)));
    } else {
      TerminalizeAdjudicates(s.(store := Promoted(s.store, Confirmed(s, e, r.authorization))));
    }
  }

  /** Two adjudicated stages that know the same events agree on the result,
      however differently the events arrived. */
  lemma SameEventsSameResult(s: State, t: State)
    requires Inv(s) && Inv(t) && Adjudicated(s) && Adjudicated(t) && s.store.official != []
    requires multiset(s.store.official) == multiset(t.store.official)
    requires multiset(s.store.pending) == multiset(t.store.pending)
    ensures s.phase == t.phase && s.latch == t.latch
  {
    PhaseMeaning(s);
    SameMembers(s.store.official, t.store.official);
    VerdictIgnoresArrivalOrder(s.store.official, s.store.pending, t.store.official, t.store.pending);
  }

  /** The latched result is AMBIGUOUS exactly when two known events of different
      kinds overlap; otherwise it is the kind of whichever official event really
      happened first. */
  lemma ResultNeverInventsOrder(s: State, at: RuleEvent -> int, first: RuleEvent)
    requires Adjudicated(s) && s.store.official != []
    requires TrueTimes(at, s.store.official) && EarliestIn(first, at, s.store.official)
    ensures s.latch.kind == Ambiguous <==> HasRivals(s.store.official + s.store.pending)
    ensures s.latch.kind != Ambiguous ==> s.latch.kind == first.kind
  {
    AmbiguousIffRivals(s.store.official, s.store.pending);
    if s.latch.kind != Ambiguous {
      VerdictNeverInventsOrder(s.store.official, s.store.pending, at, first);
    }
  }

  /** Exactly when a decided kind outlives a newly accepted event: no official event
      is known yet, or the events known then call for that very kind.  So TIMEOUT
      never outlives one, AMBIGUOUS does only among rivals, and any other kind only
      without rivals and as the kind of the official event first in key order. */
  lemma DecisionOutlivesEvent(s: State, e: RuleEvent, now: nat)
    requires s.phase.Terminal? && e.id !in s.store.ids
    requires ResolveEvent(s, e, now).1.Answer? && ResolveEvent(s, e, now).1.result.accepted
    ensures var official := if e.evidence.Estimate? then s.store.official else s.store.official + [e];
            var pending := if e.evidence.Estimate? then s.store.pending + [e] else s.store.pending;
            && (ResolveEvent(s, e, now).0.latch.kind == s.latch.kind <==>
                 official == [] || CallsFor(official, pending, s.latch.kind))
            && (s.latch.kind == Timeout && official != [] ==> ResolveEvent(s, e, now).0.latch.kind != Timeout)
  {
    EventAdjudicates(s, e, now);
    var t := ResolveEvent(s, e, now).0;
    if t.store.official == [] { EventKeepsKind(s, e, now); }
    hide ResolveEvent, Adjudicate, Undecided, CallsFor, HasRivals, Inv;
    if t.store.official != [] {
      VerdictIsCalledFor(t.store.official, t.store.pending, s.latch.kind);
      AmbiguousIffRivals(t.store.official, t.store.pending);
    }
  }

  lemma EventKeepsKind(s: State, e: RuleEvent, now: nat)
    requires s.phase.Terminal? && e.id !in s.store.ids && e.evidence.Estimate? && s.store.official == []
    requires ResolveEvent(s, e, now).1.Answer? && ResolveEvent(s, e, now).1.result.accepted
    ensures ResolveEvent(s, e, now).0.latch.kind == s.latch.kind
  {
    CheckedEvent(s, e, now);
    RelatchKeepsKind(WithEvent(OpenStage(s, now), e, now));
    hide Append, Relatch;
  }

  lemma RelatchKeepsKind(u: State)
    requires u.phase.Terminal? && u.store.official == []
    ensures Terminalize(u).phase.Terminal? && Terminalize(u).latch.kind == u.latch.kind
  {
    EstimatesAloneNeverDecide(u.store.pending);
  }

  /** The same for a dismissal or confirmation of a pending estimate, which
      re-adjudicates too. */
  lemma DecisionOutlivesDecision(s: State, r: Request, now: nat)
    requires s.phase.Terminal? && r.ResolveRequest? && !r.resolution.SetOfficialTerminal?
    requires ResolveBody(s, r, now).1.accepted
    ensures var t := ResolveBody(s, r, now).0;
            && (t.latch.kind == s.latch.kind <==>
                 t.store.official == [] || CallsFor(t.store.official, t.store.pending, s.latch.kind))
            && (s.latch.kind == Timeout && t.store.official != [] ==> t.latch.kind != Timeout)
  {
    DecisionAdjudicates(s, r, now);
    var t := ResolveBody(s, r, now).0;
    if t.store.official == [] { RelatchKeepsKind(s.(store := Dismissed(s.store, r.eventId))); }
    hide Relatch, Adjudicate, Undecided, CallsFor, HasRivals, Inv, EstimateLeft;
    if t.store.official != [] {
      VerdictIsCalledFor(t.store.official, t.store.pending, s.latch.kind);
      AmbiguousIffRivals(t.store.official, t.store.pending);
    }
  }

  /** An official event on record that proves the kind before the deadline. */
  predicate Proven(s: State, eventId: Id, kind: TerminalKind) {
    && eventId in s.store.ids && s.store.ids[eventId].kind == kind && s.store.ids[eventId].evidence.Official?
    && s.store.ids[eventId].truth.True? && s.store.ids[eventId].upper < s.window.stageEnd
  }

  /** What a further SET_OFFICIAL_TERMINAL needs to put another kind in place: the
      latched kind is not official or AMBIGUOUS, and the new kind is warranted. */
  predicate Replaces(s: State, r: Request, now: nat)
    requires r.ResolveRequest?
  {
    && r.expected == s.stageId && r.authorization == s.profile.organizer
    && r.kind != s.latch.kind && r.kind != NoKind
    && (s.latch.evidence.Official? ==> s.latch.kind == Ambiguous && r.kind != OfficialAbort)
    && (r.kind == Timeout ==> s.window.stageEnd <= now)
    && (r.kind == Capture || r.kind == Arrival ==> Proven(s, r.eventId, r.kind))
  }

  /** Exactly when a decided kind is overwritten by a further SET_OFFICIAL_TERMINAL: so
      an official kind other than AMBIGUOUS never is, and AMBIGUOUS can be. */
  lemma DecisionOutlivesDecree(s: State, r: Request, now: nat)
    requires s.phase.Terminal? && r.ResolveRequest? && r.resolution.SetOfficialTerminal?
    ensures var t := ResolveBody(s, r, now).0;
            && (t.latch.kind != s.latch.kind <==> Replaces(s, r, now))
            && (t.latch.kind != s.latch.kind ==> t.latch == Latch(r.kind == Ambiguous, None, r.kind, Official))
            && (s.latch.evidence.Official? && s.latch.kind != Ambiguous ==> t == s)
  {
  }

  /** A small profile for concrete runs: freeze 10, stage 100, organizer 1. */
  const SMALL := Profile(10, 100, 5, 10, 8, 8, 8, 1, 1, 1, {1}, {1}, {}, true)

  const BEGIN := DoStart(1, StartRequest(1, 0, 1), 0)
  const ABORT := DoResolve(2, ResolveRequest(1, 0, SetOfficialTerminal, OfficialAbort, 1), 5)
  const CAPTURE: RuleEvent := Event(7, 1, 1, 1, Capture, Official, True, 15, 15, [3], 1, 0, 0)

  /** The stage after BEGIN has been carried out by a new manager. */
  lemma Begun()
    ensures var s := Step(Initial(SMALL, 1, 1, Explorer), BEGIN).0;
            && s.phase == Freeze && s.window == Window(0, 10, 100) && s.latch == NO_RESULT && s.store == NO_EVENTS
            && s.stageId == 1 && s.profile == SMALL && s.lastNow == 0 && !s.epoch.pending && !s.reset.pending
            && s.operations.Keys == {(StartOp, 1)} && s.zones == map[]
  {
    hide Append;
  }

  lemma RunLast(s: State, ops: seq<Op>, op: Op)
    requires AllTyped(ops) && WellTyped(op)
    ensures AllTyped(ops + [op]) && Run(s, ops + [op]) == Step(Run(s, ops), op).0
  {
    assert (ops + [op])[..|ops|] == ops;
    hide Step;
  }

  /** An official decision is not final: in this run the organizer's abort is
      overwritten by a capture that happened inside the active window. */
  lemma DecisionIsNotFinal()
    ensures exists ops: seq<Op>, op: Op ::
      && AllTyped(ops) && AllTyped(ops + [op])
      && Run(Initial(SMALL, 1, 1, Explorer), ops).latch == Latch(false, None, OfficialAbort, Official)
      && Run(Initial(SMALL, 1, 1, Explorer), ops + [op]).latch.kind == Capture
  {
    var s0 := Initial(SMALL, 1, 1, Explorer);
    RunLast(s0, [], BEGIN);
    assert [] + [BEGIN] == [BEGIN] && Run(s0, []) == s0;
    RunLast(s0, [BEGIN], ABORT);
    RunLast(s0, [BEGIN] + [ABORT], DoEvent(CAPTURE, 20));
    Begun();
    var s1 := Step(s0, BEGIN).0;
    Aborted(s1);
    var s2 := Step(s1, ABORT).0;
    Captured(s2);
    hide Step, Run;
    assert AllTyped([BEGIN] + [ABORT]);
  }

  lemma Aborted(s: State)
    requires s.phase == Freeze && s.window == Window(0, 10, 100) && s.store == NO_EVENTS && s.stageId == 1
    requires s.profile == SMALL && s.lastNow == 0 && s.operations.Keys == {(StartOp, 1)} && s.latch == NO_RESULT
    requires s.zones == map[]
    ensures var t := Step(s, ABORT).0;
            && t.phase == Terminal && t.latch == Latch(false, None, OfficialAbort, Official) && t.store == NO_EVENTS
            && t.window == s.window && t.stageId == 1 && t.profile == SMALL && t.lastNow == 5 && t.zones == map[]
  {
    hide Append;
    assert |s.operations| == |s.operations.Keys| == 1;
  }

  lemma Captured(s: State)
    requires s.phase == Terminal && s.window == Window(0, 10, 100) && s.store == NO_EVENTS && s.stageId == 1
    requires s.profile == SMALL && s.lastNow == 5 && s.latch == Latch(false, None, OfficialAbort, Official)
    ensures Step(s, DoEvent(CAPTURE, 20)).0.latch.kind == Capture
  {
    hide ResolveEvent, Adjudicate, CallsFor, Undecided, Inv;
    EventAcceptedExactly(s, CAPTURE, 20);
    EventAdjudicates(s, CAPTURE, 20);
    assert [] + [CAPTURE] == [CAPTURE];
    VerdictIsCalledFor([CAPTURE], [], Capture);
    SingleCalls(CAPTURE);
  }

  const UNCLEAR := DoResolve(2, ResolveRequest(1, 0, SetOfficialTerminal, Ambiguous, 1), 5)
  const OVERTIME := DoResolve(3, ResolveRequest(1, 0, SetOfficialTerminal, Timeout, 1), 100)

  /** Nor is an organizer's AMBIGUOUS final against the organizer: in this run a later
      TIMEOUT decision replaces it. */
  lemma AmbiguousIsReplaced()
    ensures exists ops: seq<Op>, op: Op ::
      && AllTyped(ops) && AllTyped(ops + [op])
      && Run(Initial(SMALL, 1, 1, Explorer), ops).latch == Latch(true, None, Ambiguous, Official)
      && Run(Initial(SMALL, 1, 1, Explorer), ops + [op]).latch == Latch(false, None, Timeout, Official)
  {
    var s0 := Initial(SMALL, 1, 1, Explorer);
    RunLast(s0, [], BEGIN);
    assert [] + [BEGIN] == [BEGIN] && Run(s0, []) == s0;
    RunLast(s0, [BEGIN], UNCLEAR);
    RunLast(s0, [BEGIN] + [UNCLEAR], OVERTIME);
    Begun();
    var s1 := Step(s0, BEGIN).0;
    LeftUnclear(s1);
    TimedOut(Step(s1, UNCLEAR).0);
    hide Step, Run;
    assert AllTyped([BEGIN] + [UNCLEAR]);
  }

  lemma LeftUnclear(s: State)
    requires s.phase == Freeze && s.window == Window(0, 10, 100) && s.store == NO_EVENTS && s.stageId == 1
    requires s.profile == SMALL && s.lastNow == 0 && s.operations.Keys == {(StartOp, 1)} && s.latch == NO_RESULT
    ensures var t := Step(s, UNCLEAR).0;
            && t.phase == Terminal && t.latch == Latch(true, None, Ambiguous, Official) && t.window == s.window
            && t.stageId == 1 && t.profile == SMALL && t.lastNow == 5
            && t.operations.Keys == {(StartOp, 1), (ResolveOp, 2)}
  {
    hide Append;
    assert |s.operations| == |s.operations.Keys| == 1;
  }

  lemma TimedOut(s: State)
    requires s.phase == Terminal && s.latch == Latch(true, None, Ambiguous, Official)
    requires s.window == Window(0, 10, 100) && s.stageId == 1 && s.profile == SMALL && s.lastNow == 5
    requires s.operations.Keys == {(StartOp, 1), (ResolveOp, 2)}
    ensures Step(s, OVERTIME).0.latch == Latch(false, None, Timeout, Official)
  {
    hide Append;
    assert |s.operations| == |s.operations.Keys| == 2;
  }

  lemma SingleCalls(e: RuleEvent)
    ensures CallsFor([e], [], e.kind)
  {
    assert [e] + [] == [e];
    assert KeyLeast(e, [e]);
  }

  // ------------------------------------------------------- local hold quirk

  /** After a localization epoch change in ACTIVE nothing is pending, yet the
      hold survives exactly when it was not the hold of one single estimate. */
  lemma HoldAfterLocalizationChange(s: State, epoch: Id)
    requires Inv(s) && s.phase.Active? && epoch != s.profile.localizationEpoch
    ensures ChangeLocalization(s, epoch).0.store.pending == []
    ensures ChangeLocalization(s, epoch).0.latch.hold <==> s.latch.hold && |s.store.pending| != 1
  {
    if s.latch.held.Some? {
      assert s.latch.held.value == s.store.pending[0] && s.store.pending[0] in s.store.pending;
    }
  }

  const FIRST: RuleEvent := Event(7, 1, 1, 1, Capture, Estimate, True, 12, 12, [3], 0, 0, 0)
  const SECOND: RuleEvent := Event(8, 1, 1, 1, Capture, Estimate, True, 14, 14, [4], 0, 0, 0)

  /** The begun stage, ACTIVE at 20, with the given estimates pending. */
  ghost predicate ActiveWith(s: State, pending: seq<RuleEvent>, ids: set<Id>) {
    && Inv(s) && s.phase == Active && s.window == Window(0, 10, 100) && s.stageId == 1 && s.profile == SMALL
    && s.lastNow == 20 && s.store.official == [] && s.store.pending == pending && s.store.ids.Keys == ids
  }

  lemma Activated(s: State)
    requires Inv(s) && s.phase == Freeze && s.window == Window(0, 10, 100) && s.store == NO_EVENTS
    requires s.stageId == 1 && s.profile == SMALL && s.lastNow == 0
    ensures ActiveWith(TakeSnapshot(s, 20).0, [], {})
  {
    SnapshotInv(s, 20);
    hide Append, Inv;
  }

  lemma BegunInv()
    ensures Inv(Step(Initial(SMALL, 1, 1, Explorer), BEGIN).0)
  {
    hide Step, Inv, Initial;
    InitialInv(SMALL, 1, 1, Explorer);
    assert WellTyped(BEGIN);
    hide *;
    StepInv(Initial(SMALL, 1, 1, Explorer), BEGIN);
  }

  lemma SnapshotStep(s: State, now: nat)
    ensures Step(s, DoSnapshot(now)) == TakeSnapshot(s, now)
  {
    hide TakeSnapshot;
  }

  lemma NowActive()
    ensures ActiveWith(Step(Step(Initial(SMALL, 1, 1, Explorer), BEGIN).0, DoSnapshot(20)).0, [], {})
  {
    assert WellTyped(BEGIN) && WellTyped(DoSnapshot(20));
    hide *;
    Begun();
    BegunInv();
    var s := Step(Initial(SMALL, 1, 1, Explorer), BEGIN).0;
    SnapshotStep(s, 20);
    Activated(s);
  }

  lemma EstimateAccepted(s: State, pending: seq<RuleEvent>, ids: set<Id>, e: RuleEvent)
    requires ActiveWith(s, pending, ids) && |ids| <= 1 && e.id !in ids && (e == FIRST || e == SECOND)
    ensures ResolveEvent(s, e, 20).1.Answer? && ResolveEvent(s, e, 20).1.result.accepted
  {
    assert |s.store.ids| == |s.store.ids.Keys| && e.id !in s.store.ids && s.lastNow == 20 && s.profile.maxEvents > 1;
    EstimateFits(s, e);
    hide *;
    EventAcceptedExactly(s, e, 20);
  }

  lemma EstimateFits(s: State, e: RuleEvent)
    requires s.phase == Active && s.window == Window(0, 10, 100) && s.stageId == 1 && s.profile == SMALL
    requires s.store.official == [] && (e == FIRST || e == SECOND)
    ensures Addressed(s, e) && Inside(s, e, 20) && AtTarget(s, e) && Warranted(s, e)
  {
  }

  lemma EstimateArrives(s: State, pending: seq<RuleEvent>, ids: set<Id>, e: RuleEvent)
    requires ActiveWith(s, pending, ids) && |ids| <= 1 && e.id !in ids && (e == FIRST || e == SECOND)
    ensures ActiveWith(Step(s, DoEvent(e, 20)).0, pending + [e], ids + {e.id})
    ensures Step(s, DoEvent(e, 20)).0.latch.hold
  {
    hide ResolveEvent, Inv, Adjudicated;
    EstimateAccepted(s, pending, ids, e);
    EventAdjudicates(s, e, 20);
    StepInv(s, DoEvent(e, 20));
    EventFrame(s, e, 20);
    PhaseMeaning(ResolveEvent(s, e, 20).0);
  }

  lemma EventFrame(s: State, e: RuleEvent, now: nat)
    requires ResolveEvent(s, e, now).1.Answer? && ResolveEvent(s, e, now).1.result.accepted && e.id !in s.store.ids
    ensures var t := ResolveEvent(s, e, now).0;
            && t.profile == s.profile && t.window == s.window && t.stageId == s.stageId
            && t.lastNow == now && t.store.ids == s.store.ids[e.id := e]
  {
    hide Append, Relatch, CheckEvent;
    CheckedEvent(s, e, now);
    AdvanceForward(CheckEvent(s, e, now).0, now);
    CheckedFrame(s, e, now);
    hide Advance, WithEvent, OpenStage, Terminalize;
  }

  lemma CheckedFrame(s: State, e: RuleEvent, now: nat)
    ensures var t := Terminalize(WithEvent(OpenStage(s, now), e, now));
            t.profile == s.profile && t.window == s.window && t.stageId == s.stageId && t.store.ids == s.store.ids
  {
    hide Append, Relatch;
  }

  /** The hold does outlive its estimates: this run ends in ACTIVE, on hold, with
      nothing pending. */
  lemma HoldOutlivesEstimates()
    ensures exists ops: seq<Op> ::
      AllTyped(ops) &&
      var t := Run(Initial(SMALL, 1, 1, Explorer), ops);
      t.phase == Active && t.latch.hold && t.store.pending == []
  {
    hide Initial, Step, ActiveWith, Inv;
    var s0 := Initial(SMALL, 1, 1, Explorer);
    NowActive();
    var ops := [BEGIN, DoSnapshot(20), DoEvent(FIRST, 20), DoEvent(SECOND, 20), DoLocalization(2)];
    RunFive(s0, ops[0], ops[1], ops[2], ops[3], ops[4]);
    hide Run;
    var s2 := Step(Step(s0, ops[0]).0, ops[1]).0;
    EstimateArrives(s2, [], {}, FIRST);
    assert [] + [FIRST] == [FIRST] && {} + {FIRST.id} == {7} && SECOND.id == 8;
    var s3 := Step(s2, ops[2]).0;
    EstimateArrives(s3, [FIRST], {7}, SECOND);
    assert [FIRST] + [SECOND] == [FIRST, SECOND] && {7} + {SECOND.id} == {7, 8};
    var s4 := Step(s3, ops[3]).0;
    ActiveOnSmall(s4, [FIRST, SECOND], {7, 8});
    HoldAfterLocalizationChange(s4, 2);
    LocalizationStep(s4, 2);
    hide ChangeLocalization;
  }

  lemma RunFive(s: State, a: Op, b: Op, c: Op, d: Op, e: Op)
    requires AllTyped([a, b, c, d, e]) && WellTyped(a) && WellTyped(b) && WellTyped(c) && WellTyped(d) && WellTyped(e)
    ensures Run(s, [a, b, c, d, e]) == Step(Step(Step(Step(Step(s, a).0, b).0, c).0, d).0, e).0
  {
    hide Step, WellTyped;
    assert [] + [a] == [a] && Run(s, []) == s;
    RunLast(s, [], a);
    RunLast(s, [a], b);
    RunLast(s, [a] + [b], c);
    RunLast(s, [a] + [b] + [c], d);
    RunLast(s, [a] + [b] + [c] + [d], e);
    assert [a] + [b] + [c] + [d] + [e] == [a, b, c, d, e];
  }

  lemma ActiveOnSmall(s: State, pending: seq<RuleEvent>, ids: set<Id>)
    requires ActiveWith(s, pending, ids)
    ensures Inv(s) && s.phase.Active? && s.profile.localizationEpoch == 1 && s.store.pending == pending
  {
    hide Inv;
  }

  lemma LocalizationStep(s: State, epoch: Id)
    ensures Step(s, DoLocalization(epoch)) == ChangeLocalization(s, epoch)
    ensures ChangeLocalization(s, epoch).0.phase == s.phase
  {
    hide Append, WithoutEstimates;
  }

  // ----------------------------------------------------------------- phases

  lemma AdvanceForward(s: State, now: nat)
    ensures Rank(s.phase) <= Rank(Advance(s, now).phase)
    ensures Advance(s, now).stageId == s.stageId && Advance(s, now).usedStageIds == s.usedStageIds
    ensures Advance(s, now).operations == s.operations && Advance(s, now).profile == s.profile
    ensures Advance(s, now).reset == s.reset && Advance(s, now).epoch == s.epoch
    ensures Advance(s, now).store == s.store && Advance(s, now).window == s.window
  {
  }

  lemma TerminalizeForward(s: State)
    ensures Rank(s.phase) <= Rank(Terminalize(s).phase)
  {
    RelatchAdjudicates(s.phase, s.latch, s.store);
  }

  /** Nothing but stage identity, barriers and phase order. */
  ghost predicate Forward(s: State, t: State) {
    && t.stageId == s.stageId && t.usedStageIds == s.usedStageIds
    && t.reset == s.reset && t.epoch == s.epoch
    && Rank(s.phase) <= Rank(t.phase)
  }

  lemma CheckEventForward(s: State, e: RuleEvent, now: nat)
    ensures Forward(s, CheckEvent(s, e, now).0)
  {
    if CheckEvent(s, e, now).1.accepted {
      CheckedEvent(s, e, now);
      TerminalizeForward(WithEvent(OpenStage(s, now), e, now));
    }
  }

  lemma EventForward(s: State, e: RuleEvent, now: nat)
    ensures Forward(s, ResolveEvent(s, e, now).0)
  {
    hide Append, Advance, CheckEvent;
    AdvanceForward(s, now);
    CheckEventForward(s, e, now);
    AdvanceForward(CheckEvent(s, e, now).0, now);
  }

  lemma ResolveBodyForward(s: State, r: Request, now: nat)
    requires r.ResolveRequest?
    ensures Forward(s, ResolveBody(s, r, now).0)
  {
    hide Relatch, DropPending, Confirmed;
    if r.resolution.SetOfficialTerminal? {
    } else if FindPending(s.store.pending, r.eventId).Some? {
      var e := FindPending(s.store.pending, r.eventId).value;
      if r.resolution.DismissEstimate? {
        TerminalizeForward(s.(store := Dismissed(s.store, r.eventId)));
      } else {
        TerminalizeForward(s.(store := Promoted(s.store, Confirmed(s, e, r.authorization))));
      }
    }
  }

  lemma AdmitForward(s: State, id: Id, r: Request, now: nat)
    ensures !Admit(s, id, r, now).Refused? ==> Forward(s, Admit(s, id, r, now).state)
  {
    AdvanceForward(s, now);
  }

  lemma ResolveForward(s: State, id: Id, r: Request, now: nat)
    requires r.ResolveRequest?
    ensures Forward(s, ResolveEstimate(s, id, r, now).0)
  {
    AdmitForward(s, id, r, now);
    var a := Admit(s, id, r, now);
    if a.Fresh? { ResolveBodyForward(a.state, r, now); }
  }

  lemma StartForward(s: State, id: Id, r: Request, now: nat)
    requires r.StartRequest?
    ensures Forward(s, StartStage(s, id, r, now).0)
  {
    AdmitForward(s, id, r, now);
    var a := Admit(s, id, r, now);
    if a.Fresh? {
      var (u, result) := StartBody(a.state, r, now);
      AdvanceForward(Remember(u, id, r, result), now);
    }
  }

  lemma ZoneForward(s: State, id: Id, r: Request, now: nat)
    requires r.ZoneRequest?
    ensures Forward(s, SetGoalZone(s, id, r, now).0)
  {
    AdmitForward(s, id, r, now);
  }

  /** What a step does to the stage identity: nothing, or a fresh disarmed stage
      behind a raised barrier.  Within a stage the phase never decreases. */
  ghost predicate StageKept(s: State, t: State) {
    t.stageId == s.stageId && t.usedStageIds == s.usedStageIds && Rank(s.phase) <= Rank(t.phase)
  }

  ghost predicate StageRenewed(s: State, t: State) {
    && t.stageId !in s.usedStageIds && t.usedStageIds == s.usedStageIds + {t.stageId}
    && t.reset == Barrier(true, {}) && t.epoch == Barrier(false, {}) && t.phase.Init?
  }

  lemma ResetMoves(s: State, id: Id, r: Request, newId: Id, now: nat)
    requires r.ResetRequest?
    ensures var t := ResetStage(s, id, r, newId, now).0;
            Forward(s, t) || StageRenewed(s, t)
  {
    AdmitForward(s, id, r, now);
    AdvanceForward(s, now);
  }

  /** Operations other than acknowledgements, resets and epoch changes leave
      identity and barriers alone. */
  lemma QuietStep(s: State, op: Op)
    requires WellTyped(op) && (op.DoStart? || op.DoZone? || op.DoEvent? || op.DoResolve? || op.DoSnapshot?)
    ensures Forward(s, Step(s, op).0)
  {
    match op
    case DoStart(id, r, now) => StartForward(s, id, r, now);
    case DoZone(id, r, now) => ZoneForward(s, id, r, now);
    case DoEvent(e, now) => EventForward(s, e, now);
    case DoResolve(id, r, now) => ResolveForward(s, id, r, now);
    case DoSnapshot(now) => AdvanceForward(s, now);
  }

  lemma BarrierStep(s: State, op: Op)
    requires op.DoAckReset? || op.DoAckLocalization? || op.DoLocalization? || op.DoClock?
    ensures StageKept(s, Step(s, op).0) || StageRenewed(s, Step(s, op).0)
  {
  }

  /** Within one stage id the phase only moves forward; a stage id is new. */
  lemma PhaseNeverDecreases(s: State, op: Op)
    requires Inv(s) && WellTyped(op)
    ensures StageKept(s, Step(s, op).0) || StageRenewed(s, Step(s, op).0)
    ensures Step(s, op).0.stageId == s.stageId ==> Rank(s.phase) <= Rank(Step(s, op).0.phase)
  {
    if op.DoReset? {
      ResetMoves(s, op.id, op.request, op.newId, op.now);
    } else if op.DoStart? || op.DoZone? || op.DoEvent? || op.DoResolve? || op.DoSnapshot? {
      QuietStep(s, op);
    } else {
      BarrierStep(s, op);
    }
  }

  // --------------------------------------------------------- motion authority

  /** What an observer of the calls and replies knows: every stage id used, and
      the acknowledgements since the last reset and localization change. */
  datatype History = History(
    stageIds: seq<Id>, resetSeen: bool, resetAcks: set<Effect>, epochSeen: bool, epochAcks: set<Effect>)

  function Observe(h: History, s: State, op: Op): (h': History)
    requires WellTyped(op)
    ensures |h'.stageIds| >= |h.stageIds|
  {
    var (t, reply) := Step(s, op);
    if t.stageId != s.stageId then History(h.stageIds + [t.stageId], true, {}, false, {})
    else match op
      case DoAckReset(id, acks) =>
        if id == s.stageId && reply.Acknowledged? then h.(resetAcks := h.resetAcks + acks) else h
      case DoAckLocalization(id, acks) =>
        if id == s.stageId && reply.Acknowledged? then h.(epochAcks := h.epochAcks + acks) else h
      case DoLocalization(_) =>
        if reply.Answer? then h.(epochSeen := true, epochAcks := {}) else h
      case _ => h
  }

  function Watch(s: State, ops: seq<Op>): (h: History)
    requires AllTyped(ops)
    ensures |h.stageIds| > 0
  {
    if ops == [] then History([s.stageId], false, {}, false, {})
    else Observe(Watch(s, ops[..|ops| - 1]), Run(s, ops[..|ops| - 1]), ops[|ops| - 1])
  }

  ghost predicate BarrierMatches(b: Barrier, seen: bool, acks: set<Effect>, all: set<Effect>) {
    && acks <= all
    && (b.pending <==> seen && acks != all)
    && (b.pending ==> b.acks == acks)
  }

  ghost predicate IdsMatch(h: History, s: State) {
    && h.stageIds != [] && h.stageIds[|h.stageIds| - 1] == s.stageId
    && (forall i, j :: 0 <= i < j < |h.stageIds| ==> h.stageIds[i] != h.stageIds[j])
    && (forall id :: id in h.stageIds ==> id in s.usedStageIds)
  }

  ghost predicate Matches(h: History, s: State) {
    && IdsMatch(h, s)
    && BarrierMatches(s.reset, h.resetSeen, h.resetAcks, RESET_ACKS)
    && BarrierMatches(s.epoch, h.epochSeen, h.epochAcks, EPOCH_ACKS)
  }

  lemma NewStageMatches(h: History, s: State, t: State)
    requires IdsMatch(h, s) && StageRenewed(s, t)
    ensures Matches(History(h.stageIds + [t.stageId], true, {}, false, {}), t)
  {
    assert Actions !in Barrier(true, {}).acks && Actions in RESET_ACKS;
  }

  lemma ResetStepMatches(h: History, s: State, op: Op)
    requires Matches(h, s) && Inv(s) && WellTyped(op) && (op.DoReset? || op.DoClock?)
    ensures Matches(Observe(h, s, op), Step(s, op).0)
  {
    var t := Step(s, op).0;
    if op.DoReset? {
      ResetMoves(s, op.id, op.request, op.newId, op.now);
    }
    if t.stageId != s.stageId {
      NewStageMatches(h, s, t);
    }
  }

  lemma AckResetMatches(h: History, s: State, id: Id, acks: set<Effect>)
    requires Matches(h, s)
    ensures Matches(Observe(h, s, DoAckReset(id, acks)), AcknowledgeReset(s, id, acks).0)
  {
    if id == s.stageId && acks <= RESET_ACKS {
      assert BarrierMatches(AcknowledgeReset(s, id, acks).0.reset, h.resetSeen, h.resetAcks + acks, RESET_ACKS);
    }
  }

  lemma AckLocalizationMatches(h: History, s: State, id: Id, acks: set<Effect>)
    requires Matches(h, s)
    ensures Matches(Observe(h, s, DoAckLocalization(id, acks)), AcknowledgeLocalization(s, id, acks).0)
  {
    if id == s.stageId && acks <= EPOCH_ACKS {
      assert BarrierMatches(AcknowledgeLocalization(s, id, acks).0.epoch, h.epochSeen, h.epochAcks + acks, EPOCH_ACKS);
    }
  }

  lemma LocalizationMatches(h: History, s: State, epoch: Id)
    requires Matches(h, s)
    ensures Matches(Observe(h, s, DoLocalization(epoch)), ChangeLocalization(s, epoch).0)
  {
    assert Actions in EPOCH_ACKS;
  }

  lemma ObserveMatches(h: History, s: State, op: Op)
    requires Matches(h, s) && Inv(s) && WellTyped(op)
    ensures Matches(Observe(h, s, op), Step(s, op).0)
  {
    if op.DoReset? || op.DoClock? {
      ResetStepMatches(h, s, op);
    } else if op.DoAckReset? {
      AckResetMatches(h, s, op.stageId, op.acks);
    } else if op.DoAckLocalization? {
      AckLocalizationMatches(h, s, op.stageId, op.acks);
    } else if op.DoLocalization? {
      LocalizationMatches(h, s, op.epoch);
    } else {
      QuietStep(s, op);
    }
  }

  lemma {:induction false} WatchMatches(s: State, ops: seq<Op>)
    requires Inv(s) && AllTyped(ops) && !s.reset.pending && !s.epoch.pending
    ensures Matches(Watch(s, ops), Run(s, ops))
  {
    if ops != [] {
      var prior := ops[..|ops| - 1];
      WatchMatches(s, prior);
      RunInv(s, prior);
      ObserveMatches(Watch(s, prior), Run(s, prior), ops[|ops| - 1]);
    }
  }

  lemma AuthorityAt(s: State, h: History, now: nat)
    requires Inv(s) && Matches(h, s) && TakeSnapshot(s, now).1.Snapshot?
    ensures var t := TakeSnapshot(s, now).0;
            && TakeSnapshot(s, now).1.state.motionAuthorized == MotionAuthorized(t)
            && Inv(t) && Matches(h, t) && t.lastNow == now
  {
    AdvanceKeepsInv(s, now);
    AdvanceForward(s, now);
  }

  /** Over every run from a fresh manager: a snapshot authorises motion exactly
      when the stage is ACTIVE and unheld and every acknowledgement owed since the
      last reset and since the last localization change has arrived.  Then the
      clock is inside the active window, no estimate is pending, and the stage
      id differs from every earlier one. */
  lemma MotionAuthority(p: Profile, stageId: Id, stageNumber: nat, role: Role, ops: seq<Op>, now: nat)
    requires ValidProfile(p) && stageNumber <= 255 && AllTyped(ops)
    requires TakeSnapshot(Run(Initial(p, stageId, stageNumber, role), ops), now).1.Snapshot?
    ensures var s0 := Initial(p, stageId, stageNumber, role);
            var h := Watch(s0, ops);
            var (t, reply) := TakeSnapshot(Run(s0, ops), now);
            && (reply.state.motionAuthorized <==>
                 t.phase.Active? && !t.latch.hold
                 && (h.resetSeen ==> h.resetAcks == RESET_ACKS) && (h.epochSeen ==> h.epochAcks == EPOCH_ACKS))
            && (reply.state.motionAuthorized ==>
                 && t.window.freezeEnd <= now < t.window.stageEnd
                 && t.store.pending == [] && t.store.official == []
                 && h.stageIds[|h.stageIds| - 1] == t.stageId
                 && (forall i :: 0 <= i < |h.stageIds| - 1 ==> h.stageIds[i] != t.stageId))
  {
    var s0 := Initial(p, stageId, stageNumber, role);
    InitialInv(p, stageId, stageNumber, role);
    RunInv(s0, ops);
    WatchMatches(s0, ops);
    AuthorityAt(Run(s0, ops), Watch(s0, ops), now);
    PhaseMeaning(TakeSnapshot(Run(s0, ops), now).0);
  }

  // ------------------------------------------------------------ replay cache

  function KeyOf(op: Op): Option<(Operation, Id)> {
    match op
    case DoStart(id, r, _) => Some((OperationOf(r), id))
    case DoZone(id, r, _) => Some((OperationOf(r), id))
    case DoResolve(id, r, _) => Some((OperationOf(r), id))
    case DoReset(id, r, _, _) => Some((OperationOf(r), id))
    case _ => None
  }

  /** The body of a keyed request is executed by this step. */
  predicate BodyRuns(s: State, op: Op)
    requires WellTyped(op)
  {
    match op
    case DoStart(id, r, now) => Admit(s, id, r, now).Fresh?
    case DoZone(id, r, now) => Admit(s, id, r, now).Fresh?
    case DoResolve(id, r, now) => Admit(s, id, r, now).Fresh?
    case DoReset(id, r, _, now) => 0 <= r.stageNumber <= 255 && Admit(s, id, r, now).Fresh?
    case _ => false
  }

  lemma ResolveBodyCache(s: State, r: Request, now: nat)
    requires r.ResolveRequest?
    ensures ResolveBody(s, r, now).0.operations == s.operations
  {
  }

  lemma CheckEventCache(s: State, e: RuleEvent, now: nat)
    ensures CheckEvent(s, e, now).0.operations == s.operations
  {
    if CheckEvent(s, e, now).1.accepted { CheckedEvent(s, e, now); }
  }

  lemma EventCache(s: State, e: RuleEvent, now: nat)
    ensures ResolveEvent(s, e, now).0.operations == s.operations
  {
    AdvanceForward(s, now);
    CheckEventCache(s, e, now);
    AdvanceForward(CheckEvent(s, e, now).0, now);
  }

  lemma StartCache(s: State, id: Id, r: Request, now: nat)
    requires r.StartRequest?
    ensures var t := StartStage(s, id, r, now);
            if Admit(s, id, r, now).Fresh? then
              t.1.Answer? && t.0.operations == s.operations[(OperationOf(r), id) := OperationRecord(r, t.1.result)]
            else t.0.operations == s.operations
  {
    AdvanceForward(s, now);
    var a := Admit(s, id, r, now);
    if a.Fresh? {
      var (u, result) := StartBody(a.state, r, now);
      AdvanceForward(Remember(u, id, r, result), now);
    }
  }

  lemma ResolveCache(s: State, id: Id, r: Request, now: nat)
    requires r.ResolveRequest?
    ensures var t := ResolveEstimate(s, id, r, now);
            if Admit(s, id, r, now).Fresh? then
              t.1.Answer? && t.0.operations == s.operations[(OperationOf(r), id) := OperationRecord(r, t.1.result)]
            else t.0.operations == s.operations
  {
    AdvanceForward(s, now);
    var a := Admit(s, id, r, now);
    if a.Fresh? { ResolveBodyCache(a.state, r, now); }
  }

  lemma ZoneAndResetCache(s: State, id: Id, r: Request, newId: Id, now: nat)
    requires r.ZoneRequest? || (r.ResetRequest? && 0 <= r.stageNumber <= 255)
    ensures var t := if r.ZoneRequest? then SetGoalZone(s, id, r, now) else ResetStage(s, id, r, newId, now);
            if Admit(s, id, r, now).Fresh? then
              t.1.Answer? && t.0.operations == s.operations[(OperationOf(r), id) := OperationRecord(r, t.1.result)]
            else t.0.operations == s.operations
  {
    AdvanceForward(s, now);
  }

  /** Running a body records its request and result under its key; every other
      step but a clock epoch change keeps all records. */
  lemma CacheGrows(s: State, op: Op)
    requires WellTyped(op) && !op.DoClock?
    ensures BodyRuns(s, op) ==>
              Step(s, op).1.Answer? && KeyOf(op).Some?
              && Step(s, op).0.operations ==
                 s.operations[KeyOf(op).value := OperationRecord(op.request, Step(s, op).1.result)]
              && KeyOf(op).value !in s.operations
    ensures !BodyRuns(s, op) ==> Step(s, op).0.operations == s.operations
  {
    match op
    case DoStart(id, r, now) => StartCache(s, id, r, now); AdvanceForward(s, now);
    case DoZone(id, r, now) => ZoneAndResetCache(s, id, r, 0, now); AdvanceForward(s, now);
    case DoResolve(id, r, now) => ResolveCache(s, id, r, now); AdvanceForward(s, now);
    case DoReset(id, r, newId, now) =>
      if 0 <= r.stageNumber <= 255 { ZoneAndResetCache(s, id, r, newId, now); AdvanceForward(s, now); }
    case DoEvent(e, now) => EventCache(s, e, now);
    case DoSnapshot(now) => AdvanceForward(s, now);
    case DoAckReset(_, _) =>
    case DoAckLocalization(_, _) =>
    case DoLocalization(_) =>
  }

  ghost predicate NoClockChange(ops: seq<Op>) {
    forall i :: 0 <= i < |ops| ==> !ops[i].DoClock?
  }

  lemma {:induction false} RecordsPersist(s: State, ops: seq<Op>, key: (Operation, Id))
    requires AllTyped(ops) && NoClockChange(ops) && key in s.operations
    ensures key in Run(s, ops).operations && Run(s, ops).operations[key] == s.operations[key]
  {
    if ops != [] {
      RecordsPersist(s, ops[..|ops| - 1], key);
      CacheGrows(Run(s, ops[..|ops| - 1]), ops[|ops| - 1]);
    }
  }

  /** A key on record is answered from the record, or refused for another payload. */
  lemma Replayed(t: State, again: Op, record: OperationRecord)
    requires WellTyped(again) && KeyOf(again).Some? && KeyOf(again).value in t.operations
    requires t.operations[KeyOf(again).value] == record
    ensures !BodyRuns(t, again)
    ensures t.lastNow <= again.now && again.request == record.request && !Step(t, again).1.Raised? ==>
              Step(t, again) == (Advance(t, again.now), Answer(record.result))
    ensures t.lastNow <= again.now && again.request != record.request && !Step(t, again).1.Raised? ==>
              Step(t, again).1.Answer? && Step(t, again).1.result.reason == PayloadMismatch
              && Step(t, again).0 == Advance(t, again.now).(journal := Step(t, again).0.journal)
  {
    hide Append;
    AdvanceForward(t, again.now);
    hide Advance;
  }

  /** Within a clock epoch the body behind a key runs at most once: after it ran,
      the same key never runs a body again, whatever happened in between; an
      equal request is answered with the stored result and changes nothing
      beyond the clock advance, and a different payload is refused. */
  lemma AtMostOnce(s: State, op: Op, between: seq<Op>, again: Op)
    requires WellTyped(op) && AllTyped(between) && WellTyped(again) && NoClockChange(between)
    requires !op.DoClock? && BodyRuns(s, op) && KeyOf(again) == KeyOf(op)
    ensures var t := Run(Step(s, op).0, between);
            && !BodyRuns(t, again)
            && (t.lastNow <= again.now && again.request == op.request && !Step(t, again).1.Raised? ==>
                 Step(t, again) == (Advance(t, again.now), Step(s, op).1))
            && (t.lastNow <= again.now && again.request != op.request && !Step(t, again).1.Raised? ==>
                 Step(t, again).1.Answer? && Step(t, again).1.result.reason == PayloadMismatch
                 && Step(t, again).0 == Advance(t, again.now).(journal := Step(t, again).0.journal))
  {
    CacheGrows(s, op);
    hide Step, BodyRuns;
    RecordsPersist(Step(s, op).0, between, KeyOf(op).value);
    Replayed(Run(Step(s, op).0, between), again, OperationRecord(op.request, Step(s, op).1.result));
  }
}
