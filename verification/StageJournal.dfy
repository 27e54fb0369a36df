/** The bounded audit journal over whole runs of the stage manager. */
module StageJournal {
  import opened Adjudication
  import opened Options
  import opened StageModel
  import opened StageRuns

  /** All records ever issued, appended one by one. */
  function AppendAll(records: seq<AuditRecord>, capacity: nat): Journal {
    if records == [] then Journal([], 0, 0)
    else Append(AppendAll(records[..|records| - 1], capacity), records[|records| - 1], capacity)
  }

  /** Dropping the first element of a suffix and adding the next one. */
  lemma SuffixMoves(records: seq<AuditRecord>, dropped: nat)
    requires records != [] && dropped < |records| - 1
    ensures var n := |records| - 1; records[..n][dropped..][1..] + [records[n]] == records[dropped + 1..]
  {
  }

  /** The bounded journal is the newest part of the full history, with nothing
      lost unaccounted. */
  lemma {:induction false} JournalIsNewestSuffix(records: seq<AuditRecord>, capacity: nat)
    requires capacity > 0
    ensures var dropped := if |records| > capacity then |records| - capacity else 0;
            AppendAll(records, capacity) == Journal(records[dropped..], |records|, dropped)
  {
    if records != [] {
      var n := |records| - 1;
      var last := records[n];
      JournalIsNewestSuffix(records[..n], capacity);
      var dropped := if n > capacity then n - capacity else 0;
      if n < capacity {
        assert records[..n][0..] + [last] == records[0..];
      } else {
        SuffixMoves(records, dropped);
      }
    }
  }

  function AppendMany(j: Journal, records: seq<AuditRecord>, capacity: nat): Journal {
    if records == [] then j
    else Append(AppendMany(j, records[..|records| - 1], capacity), records[|records| - 1], capacity)
  }

  lemma {:induction false} AppendManyAll(first: seq<AuditRecord>, more: seq<AuditRecord>, capacity: nat)
    ensures AppendMany(AppendAll(first, capacity), more, capacity) == AppendAll(first + more, capacity)
  {
    if more == [] {
      assert first + more == first;
    } else {
      var n := |more| - 1;
      AppendManyAll(first, more[..n], capacity);
      assert (first + more)[..|first| + n] == first + more[..n];
    }
  }

  lemma {:induction false} AppendManyJoins(j: Journal, a: seq<AuditRecord>, b: seq<AuditRecord>, capacity: nat)
    ensures AppendMany(AppendMany(j, a, capacity), b, capacity) == AppendMany(j, a + b, capacity)
  {
    if b == [] {
      assert a + b == a;
    } else {
      var n := |b| - 1;
      AppendManyJoins(j, a, b[..n], capacity);
      assert (a + b)[..|a| + n] == a + b[..n];
    }
  }

  /** From s to t the journal only had records appended. */
  ghost predicate Journaled(s: State, t: State) {
    t.profile.maxAudit == s.profile.maxAudit
    && exists added :: t.journal == AppendMany(s.journal, added, s.profile.maxAudit)
  }

  lemma SameJournal(s: State, t: State)
    requires t.profile.maxAudit == s.profile.maxAudit && t.journal == s.journal
    ensures Journaled(s, t)
  {
    assert t.journal == AppendMany(s.journal, [], s.profile.maxAudit);
  }

  lemma JournaledOn(s: State, t: State, u: State)
    requires Journaled(s, t) && Journaled(t, u)
    ensures Journaled(s, u)
  {
    var a :| t.journal == AppendMany(s.journal, a, s.profile.maxAudit);
    var b :| u.journal == AppendMany(t.journal, b, t.profile.maxAudit);
    AppendManyJoins(s.journal, a, b, s.profile.maxAudit);
  }

  lemma LogJournaled(s: State, op: AuditOp, subject: Option<Id>, accepted: bool, reason: Reason)
    ensures Journaled(s, Log(s, op, subject, accepted, reason))
  {
    var r := AuditRecord(s.journal.issued + 1, s.lastNow, op, subject, s.stageId, s.phase, accepted, reason);
    assert [r][..0] == [];
    assert AppendMany(s.journal, [r], s.profile.maxAudit) == Append(s.journal, r, s.profile.maxAudit);
  }

  /** Logging after changes that leave journal and capacity alone. */
  lemma ThenLog(s: State, t: State, op: AuditOp, subject: Option<Id>, accepted: bool, reason: Reason)
    requires t.profile.maxAudit == s.profile.maxAudit && t.journal == s.journal
    ensures Journaled(s, Log(t, op, subject, accepted, reason))
  {
    hide Log;
    SameJournal(s, t);
    LogJournaled(t, op, subject, accepted, reason);
    JournaledOn(s, t, Log(t, op, subject, accepted, reason));
  }

  lemma AdvanceJournaled(s: State, now: nat)
    ensures Journaled(s, Advance(s, now))
  {
    hide Log, Journaled;
    var t := s.(lastNow := now);
    SameJournal(s, t);
    ThenLog(s, t.(phase := Active), PhaseTransition, None, true, FreezeElapsed);
    ThenLog(s, t.(phase := Terminal, latch := Latch(false, None, Timeout, Estimate)), DeadlineTransition, None, true,
            DeadlineReached);
  }

  lemma AdmitJournaled(s: State, id: Id, r: Request, now: nat)
    ensures !Admit(s, id, r, now).Refused? ==> Journaled(s, Admit(s, id, r, now).state)
  {
    hide Log, Journaled, Advance;
    AdvanceJournaled(s, now);
    var t := Advance(s, now);
    var op := Requested(OperationOf(r));
    LogJournaled(t, op, Some(id), false, CapacityExhausted);
    LogJournaled(t, op, Some(id), false, PayloadMismatch);
    JournaledOn(s, t, Log(t, op, Some(id), false, CapacityExhausted)) by { hide Log; }
    JournaledOn(s, t, Log(t, op, Some(id), false, PayloadMismatch));
  }

  lemma BodyThenRemember(s: State, t: State, u: State, id: Id, r: Request, result: RequestResult)
    requires Journaled(s, t) && u.profile.maxAudit == t.profile.maxAudit && u.journal == t.journal
    ensures Journaled(s, Remember(u, id, r, result))
  {
    var op := OperationOf(r);
    hide Log, Journaled;
    ThenLog(t, u.(operations := u.operations[(op, id) := OperationRecord(r, result)]),
            Requested(op), Some(id), result.accepted, result.reason);
    JournaledOn(s, t, Remember(u, id, r, result));
  }

  lemma StartJournaled(s: State, id: Id, r: Request, now: nat)
    requires r.StartRequest?
    ensures Journaled(s, StartStage(s, id, r, now).0)
  {
    hide Journaled, Advance, Remember;
    SameJournal(s, s);
    AdmitJournaled(s, id, r, now);
    var a := Admit(s, id, r, now);
    if a.Fresh? {
      var (u, result) := StartBody(a.state, r, now);
      BodyThenRemember(s, a.state, u, id, r, result);
      var v := Remember(u, id, r, result);
      AdvanceJournaled(v, now);
      JournaledOn(s, v, Advance(v, now));
    }
    hide Admit;
  }

  lemma ZoneJournaled(s: State, id: Id, r: Request, now: nat)
    requires r.ZoneRequest?
    ensures Journaled(s, SetGoalZone(s, id, r, now).0)
  {
    hide Journaled, Advance, Remember;
    SameJournal(s, s);
    AdmitJournaled(s, id, r, now);
    var a := Admit(s, id, r, now);
    if a.Fresh? {
      var (u, result) := ZoneBody(a.state, r, now);
      BodyThenRemember(s, a.state, u, id, r, result);
    }
    hide Admit;
  }

  lemma ResolveBodyFrame(s: State, r: Request, now: nat)
    requires r.ResolveRequest?
    ensures ResolveBody(s, r, now).0.journal == s.journal && ResolveBody(s, r, now).0.profile == s.profile
  {
    hide Relatch;
  }

  lemma ResolveJournaled(s: State, id: Id, r: Request, now: nat)
    requires r.ResolveRequest?
    ensures Journaled(s, ResolveEstimate(s, id, r, now).0)
  {
    hide Journaled, Advance, Remember, ResolveBody;
    SameJournal(s, s);
    AdmitJournaled(s, id, r, now);
    var a := Admit(s, id, r, now);
    if a.Fresh? {
      var (u, result) := ResolveBody(a.state, r, now);
      ResolveBodyFrame(a.state, r, now);
      BodyThenRemember(s, a.state, u, id, r, result);
    }
    hide Admit;
  }

  lemma ResetJournaled(s: State, id: Id, r: Request, newId: Id, now: nat)
    requires r.ResetRequest?
    ensures Journaled(s, ResetStage(s, id, r, newId, now).0)
  {
    hide Journaled, Advance, Remember;
    SameJournal(s, s);
    AdmitJournaled(s, id, r, now);
    var a := Admit(s, id, r, now);
    if a.Fresh? && 0 <= r.stageNumber {
      var (u, result) := ResetBody(a.state, r, newId);
      BodyThenRemember(s, a.state, u, id, r, result);
    }
    hide Admit;
  }

  lemma LatchEventJournal(s: State, e: RuleEvent, now: nat)
    ensures LatchEvent(s, e, now).0.journal == s.journal && LatchEvent(s, e, now).0.profile == s.profile
  {
    hide Relatch;
  }

  lemma CheckJournaled(s: State, e: RuleEvent, now: nat)
    ensures Journaled(s, CheckEvent(s, e, now).0)
  {
    hide Journaled, Log, LatchEvent, EventRefusal, KindRefusal;
    SameJournal(s, s);
    ThenLog(s, s.(phase := Active), PhaseTransition, None, true, FreezeElapsedBeforeAdjudication);
    var t := OpenStage(s, now);
    assert Journaled(s, t);
    LatchEventJournal(t, e, now);
    SameJournal(t, LatchEvent(t, e, now).0);
    JournaledOn(s, t, LatchEvent(t, e, now).0);
    hide OpenStage;
  }

  lemma EventJournaled(s: State, e: RuleEvent, now: nat)
    ensures Journaled(s, ResolveEvent(s, e, now).0)
  {
    hide Journaled, Log, Advance, CheckEvent;
    SameJournal(s, s);
    AdvanceJournaled(s, now);
    ThenLog(s, s, RuleEventOp, Some(e.id), false, CapacityExhausted);
    LogJournaled(Advance(s, now), RuleEventOp, Some(e.id), false, PayloadMismatch);
    JournaledOn(s, Advance(s, now), Log(Advance(s, now), RuleEventOp, Some(e.id), false, PayloadMismatch));
    var (t, result) := CheckEvent(s, e, now);
    CheckJournaled(s, e, now);
    var u := Advance(t, now);
    AdvanceJournaled(t, now);
    JournaledOn(s, t, u);
    var v := if result.accepted then u.(store := u.store.(ids := u.store.ids[e.id := e])) else u;
    ThenLog(u, v, RuleEventOp, Some(e.id), result.accepted, result.reason);
    JournaledOn(s, u, Log(v, RuleEventOp, Some(e.id), result.accepted, result.reason));
  }

  lemma AckJournaled(s: State, stageId: Id, acks: set<Effect>)
    ensures Journaled(s, AcknowledgeReset(s, stageId, acks).0)
    ensures Journaled(s, AcknowledgeLocalization(s, stageId, acks).0)
  {
    hide Journaled, Log;
    SameJournal(s, s);
    var t := s.(reset := Barrier(true, s.reset.acks + acks));
    ThenLog(s, t, ResetAck, Some(stageId), false, EffectsPending);
    ThenLog(s, t.(reset := Barrier(false, t.reset.acks)), ResetAck, Some(stageId), true, EffectsAcknowledged);
    var u := s.(epoch := Barrier(true, s.epoch.acks + acks));
    ThenLog(s, u, LocalizationAck, Some(stageId), false, EffectsPending);
    ThenLog(s, u.(epoch := Barrier(false, u.epoch.acks)), LocalizationAck, Some(stageId), true, EffectsAcknowledged);
  }

  lemma EpochJournaled(s: State, epoch: Id, newId: Id, now: nat)
    ensures Journaled(s, ChangeLocalization(s, epoch).0)
    ensures Journaled(s, ChangeClock(s, epoch, newId, now).0)
  {
    hide Journaled, Log, WithoutEstimates;
    SameJournal(s, s);
    var latch := if s.latch.held.Some? && s.latch.held.value.evidence.Estimate?
                 then s.latch.(held := None, hold := false) else s.latch;
    ThenLog(s, s.(profile := s.profile.(localizationEpoch := epoch),
                  store := Store(s.store.official, [], WithoutEstimates(s.store.ids)),
                  latch := latch, epoch := Barrier(true, {})), LocalizationChange, None, true, LocalizationChanged);
    ThenLog(s, Disarm(s, newId).(profile := s.profile.(clockEpoch := epoch), operations := map[], lastNow := now),
            ClockChange, None, true, ClockChanged);
  }

  lemma SnapshotJournaled(s: State, now: nat)
    ensures Journaled(s, TakeSnapshot(s, now).0)
  {
    hide Journaled, Advance;
    SameJournal(s, s);
    AdvanceJournaled(s, now);
    var t := Advance(s, now);
    var u := t.(snapshots := t.snapshots + 1);
    SameJournal(t, u);
    JournaledOn(s, t, u);
  }

  /** Every operation only appends records. */
  lemma StepJournaled(s: State, op: Op)
    requires WellTyped(op)
    ensures Journaled(s, Step(s, op).0)
  {
    hide StartStage, SetGoalZone, ResolveEvent, ResolveEstimate, ResetStage, AcknowledgeReset, ChangeLocalization,
         AcknowledgeLocalization, ChangeClock, TakeSnapshot, Journaled;
    match op
    case DoStart(id, r, now) => StartJournaled(s, id, r, now);
    case DoZone(id, r, now) => ZoneJournaled(s, id, r, now);
    case DoEvent(e, now) => EventJournaled(s, e, now);
    case DoResolve(id, r, now) => ResolveJournaled(s, id, r, now);
    case DoReset(id, r, newId, now) => ResetJournaled(s, id, r, newId, now);
    case DoAckReset(stageId, acks) => AckJournaled(s, stageId, acks);
    case DoLocalization(epoch) => EpochJournaled(s, epoch, 0, 0);
    case DoAckLocalization(stageId, acks) => AckJournaled(s, stageId, acks);
    case DoClock(epoch, newId, now) => EpochJournaled(s, epoch, newId, now);
    case DoSnapshot(now) => SnapshotJournaled(s, now);
  }

  /** The records a step appends. */
  ghost function Added(s: State, op: Op): (added: seq<AuditRecord>)
    requires WellTyped(op)
    ensures Step(s, op).0.journal == AppendMany(s.journal, added, s.profile.maxAudit)
  {
    StepJournaled(s, op);
    var added :| Step(s, op).0.journal == AppendMany(s.journal, added, s.profile.maxAudit);
    added
  }

  /** All records a run has issued, oldest first. */
  ghost function LogOf(s: State, ops: seq<Op>): seq<AuditRecord>
    requires AllTyped(ops)
  {
    if ops == [] then []
    else LogOf(s, ops[..|ops| - 1]) + Added(Run(s, ops[..|ops| - 1]), ops[|ops| - 1])
  }

  /** The journal of every run is the newest part of the run's log, which only grows
      as the run goes on: dropped plus retained equals issued and nothing is lost
      unaccounted. */
  lemma {:induction false} JournalOfRun(p: Profile, stageId: Id, stageNumber: nat, role: Role, ops: seq<Op>)
    requires ValidProfile(p) && AllTyped(ops)
    ensures var s0 := Initial(p, stageId, stageNumber, role);
            var log := LogOf(s0, ops);
            var dropped := if |log| > p.maxAudit then |log| - p.maxAudit else 0;
            && Run(s0, ops).journal == Journal(log[dropped..], |log|, dropped)
            && (ops != [] ==> LogOf(s0, ops[..|ops| - 1]) <= log)
  {
    JournalIsLog(p, stageId, stageNumber, role, ops);
    JournalIsNewestSuffix(LogOf(Initial(p, stageId, stageNumber, role), ops), p.maxAudit);
    hide Run, AppendAll, Initial, Added;
  }

  lemma {:induction false} JournalIsLog(p: Profile, stageId: Id, stageNumber: nat, role: Role, ops: seq<Op>)
    requires AllTyped(ops)
    ensures var s0 := Initial(p, stageId, stageNumber, role);
            && Run(s0, ops).journal == AppendAll(LogOf(s0, ops), p.maxAudit)
            && Run(s0, ops).profile.maxAudit == p.maxAudit
  {
    var s0 := Initial(p, stageId, stageNumber, role);
    if ops != [] {
      var init, last := ops[..|ops| - 1], ops[|ops| - 1];
      JournalIsLog(p, stageId, stageNumber, role, init);
      StepJournaled(Run(s0, init), last);
      hide Step;
      AppendManyAll(LogOf(s0, init), Added(Run(s0, init), last), p.maxAudit);
    }
  }
}
