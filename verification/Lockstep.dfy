/** Two stage managers that differ only in role, request history and journal
    cannot be told apart by the operations a benchmark episode performs. */
module Lockstep {
  import opened Adjudication
  import opened Options
  import opened StageModel

  /** A state without the parts in which the two role managers may differ. */
  function Core(s: State): State {
    s.(role := Explorer, operations := map[], journal := Journal([], 0, 0))
  }

  ghost predicate InStep(s: State, t: State) { Core(s) == Core(t) }

  /** A reply without the role. */
  function Unroled(r: Reply): Reply {
    if r.Snapshot? then Snapshot(r.state.(role := Explorer)) else r
  }

  /** Operations that carry no request id. */
  predicate Unkeyed(op: Op) {
    op.DoEvent? || op.DoAckReset? || op.DoLocalization? || op.DoAckLocalization? || op.DoSnapshot?
  }

  lemma AdvanceCore(s: State, now: nat)
    ensures Core(Advance(s, now)) == Core(Advance(Core(s), now))
    ensures Advance(s, now).role == s.role && Advance(s, now).operations == s.operations
  {
    hide Append;
  }

  lemma LatchEventCore(s: State, e: RuleEvent, now: nat)
    ensures Core(LatchEvent(s, e, now).0) == LatchEvent(Core(s), e, now).0
    ensures LatchEvent(s, e, now).1 == LatchEvent(Core(s), e, now).1
    ensures LatchEvent(s, e, now).0.role == s.role
  {
    hide Relatch;
  }

  lemma CheckEventCore(s: State, e: RuleEvent, now: nat)
    ensures Core(CheckEvent(s, e, now).0) == Core(CheckEvent(Core(s), e, now).0)
    ensures CheckEvent(s, e, now).1 == CheckEvent(Core(s), e, now).1
    ensures CheckEvent(s, e, now).0.role == s.role
  {
    assert EventRefusal(s, e, now) == EventRefusal(Core(s), e, now);
    var t, u := OpenStage(s, now), OpenStage(Core(s), now);
    assert Core(t) == Core(u) && t.role == s.role;
    assert KindRefusal(t, e) == KindRefusal(Core(t), e) && KindRefusal(u, e) == KindRefusal(Core(u), e);
    LatchEventCore(t, e, now);
    LatchEventCore(u, e, now);
    hide OpenStage, KindRefusal, EventRefusal, LatchEvent;
  }

  lemma LogCore(s: State, op: AuditOp, subject: Option<Id>, accepted: bool, reason: Reason)
    ensures Core(Log(s, op, subject, accepted, reason)) == Core(s)
    ensures Log(s, op, subject, accepted, reason).role == s.role
  {
    hide Append;
  }

  lemma NewEventCore(s: State, e: RuleEvent, now: nat)
    requires s.lastNow <= now && e.id !in s.store.ids && |s.store.ids| < s.profile.maxEvents
    ensures Core(ResolveEvent(s, e, now).0) == Core(ResolveEvent(Core(s), e, now).0)
    ensures ResolveEvent(s, e, now).1 == ResolveEvent(Core(s), e, now).1
    ensures ResolveEvent(s, e, now).0.role == s.role
  {
    hide Advance, CheckEvent, Log;
    CheckEventCore(s, e, now);
    var (t, result) := CheckEvent(s, e, now);
    var u := CheckEvent(Core(s), e, now).0;
    AdvanceCore(t, now);
    AdvanceCore(u, now);
    var t', u' := Advance(t, now), Advance(u, now);
    assert Core(t').store == t'.store && Core(u').store == u'.store;
    var tv := if result.accepted then t'.(store := t'.store.(ids := t'.store.ids[e.id := e])) else t';
    var uv := if result.accepted then u'.(store := u'.store.(ids := u'.store.ids[e.id := e])) else u';
    assert Core(tv) == Core(uv);
    LogCore(tv, RuleEventOp, Some(e.id), result.accepted, result.reason);
    LogCore(uv, RuleEventOp, Some(e.id), result.accepted, result.reason);
  }

  lemma ResolveEventCore(s: State, e: RuleEvent, now: nat)
    ensures Core(ResolveEvent(s, e, now).0) == Core(ResolveEvent(Core(s), e, now).0)
    ensures ResolveEvent(s, e, now).1 == ResolveEvent(Core(s), e, now).1
    ensures ResolveEvent(s, e, now).0.role == s.role
  {
    hide Advance, CheckEvent, Append;
    if s.lastNow <= now && e.id !in s.store.ids && |s.store.ids| < s.profile.maxEvents {
      NewEventCore(s, e, now);
      hide ResolveEvent;
    } else {
      AdvanceCore(s, now);
      assert Core(Advance(s, now)).stageId == Core(Advance(Core(s), now)).stageId;
    }
  }

  lemma AckResetCore(s: State, stageId: Id, acks: set<Effect>)
    ensures Core(AcknowledgeReset(s, stageId, acks).0) == Core(AcknowledgeReset(Core(s), stageId, acks).0)
    ensures AcknowledgeReset(s, stageId, acks).1 == AcknowledgeReset(Core(s), stageId, acks).1
    ensures AcknowledgeReset(s, stageId, acks).0.role == s.role
  {
    hide Append;
  }

  lemma AckLocalizationCore(s: State, stageId: Id, acks: set<Effect>)
    ensures Core(AcknowledgeLocalization(s, stageId, acks).0) == Core(AcknowledgeLocalization(Core(s), stageId, acks).0)
    ensures AcknowledgeLocalization(s, stageId, acks).1 == AcknowledgeLocalization(Core(s), stageId, acks).1
    ensures AcknowledgeLocalization(s, stageId, acks).0.role == s.role
  {
    hide Append;
  }

  lemma LocalizationCore(s: State, epoch: Id)
    ensures Core(ChangeLocalization(s, epoch).0) == Core(ChangeLocalization(Core(s), epoch).0)
    ensures ChangeLocalization(s, epoch).1 == ChangeLocalization(Core(s), epoch).1
    ensures ChangeLocalization(s, epoch).0.role == s.role
  {
    hide Append, WithoutEstimates;
  }

  lemma SnapshotCore(s: State, now: nat)
    ensures Core(TakeSnapshot(s, now).0) == Core(TakeSnapshot(Core(s), now).0)
    ensures Unroled(TakeSnapshot(s, now).1) == Unroled(TakeSnapshot(Core(s), now).1)
    ensures TakeSnapshot(s, now).0.role == s.role
  {
    AdvanceCore(s, now);
    var t, u := Advance(s, now), Advance(Core(s), now);
    hide Advance;
    assert t.phase == Core(t).phase == u.phase && t.latch == Core(t).latch == u.latch
        && t.zones == Core(t).zones == u.zones;
    assert t.reset == Core(t).reset == u.reset && t.epoch == Core(t).epoch == u.epoch;
  }

  lemma StepCore(s: State, op: Op)
    requires Unkeyed(op)
    ensures Core(Step(s, op).0) == Core(Step(Core(s), op).0)
    ensures Unroled(Step(s, op).1) == Unroled(Step(Core(s), op).1)
    ensures Step(s, op).0.role == s.role
  {
    hide ResolveEvent, TakeSnapshot, ChangeLocalization, AcknowledgeReset, AcknowledgeLocalization, Core, Unroled;
    match op
    case DoEvent(e, now) =>
      ResolveEventCore(s, e, now);
    case DoSnapshot(now) =>
      SnapshotCore(s, now);
    case DoLocalization(epoch) =>
      LocalizationCore(s, epoch);
    case DoAckReset(stageId, acks) =>
      AckResetCore(s, stageId, acks);
    case DoAckLocalization(stageId, acks) =>
      AckLocalizationCore(s, stageId, acks);
  }

  /** One shared operation keeps two managers in step and answers both alike. */
  lemma StepTogether(s: State, t: State, op: Op)
    requires InStep(s, t) && Unkeyed(op)
    ensures InStep(Step(s, op).0, Step(t, op).0)
    ensures Unroled(Step(s, op).1) == Unroled(Step(t, op).1)
    ensures Step(s, op).0.role == s.role && Step(t, op).0.role == t.role
  {
    StepCore(s, op);
    StepCore(t, op);
    hide Step;
  }

  lemma SnapshotTogether(s: State, t: State, now: nat)
    requires InStep(s, t)
    ensures InStep(TakeSnapshot(s, now).0, TakeSnapshot(t, now).0)
    ensures Unroled(TakeSnapshot(s, now).1) == Unroled(TakeSnapshot(t, now).1)
    ensures TakeSnapshot(s, now).0.role == s.role && TakeSnapshot(t, now).0.role == t.role
  {
    SnapshotCore(s, now);
    SnapshotCore(t, now);
    hide TakeSnapshot;
  }

  lemma EventTogether(s: State, t: State, e: RuleEvent, now: nat)
    requires InStep(s, t)
    ensures InStep(ResolveEvent(s, e, now).0, ResolveEvent(t, e, now).0)
    ensures ResolveEvent(s, e, now).1 == ResolveEvent(t, e, now).1
    ensures ResolveEvent(s, e, now).0.role == s.role && ResolveEvent(t, e, now).0.role == t.role
  {
    ResolveEventCore(s, e, now);
    ResolveEventCore(t, e, now);
    hide ResolveEvent;
  }

  predicate AllUnkeyed(ops: seq<Op>) { forall op :: op in ops ==> Unkeyed(op) }

  function Play(s: State, ops: seq<Op>): State
    requires AllUnkeyed(ops)
  {
    if ops == [] then s
    else
      assert Unkeyed(ops[|ops| - 1]);
      Step(Play(s, ops[..|ops| - 1]), ops[|ops| - 1]).0
  }

  /** So they stay in step over every shared run, each keeping its own role. */
  lemma {:induction false} PlayTogether(s: State, t: State, ops: seq<Op>)
    requires InStep(s, t) && AllUnkeyed(ops)
    ensures InStep(Play(s, ops), Play(t, ops))
    ensures Play(s, ops).role == s.role && Play(t, ops).role == t.role
  {
    if ops != [] {
      PlayTogether(s, t, ops[..|ops| - 1]);
      StepTogether(Play(s, ops[..|ops| - 1]), Play(t, ops[..|ops| - 1]), ops[|ops| - 1]);
      hide Step, InStep;
    }
  }

  lemma StartBodyCore(s: State, r: Request, now: nat)
    requires r.StartRequest?
    ensures Core(StartBody(s, r, now).0) == StartBody(Core(s), r, now).0
    ensures StartBody(s, r, now).1 == StartBody(Core(s), r, now).1
    ensures StartBody(s, r, now).0.role == s.role
  {
  }

  /** A start under a fresh request id acts on the core alone. */
  lemma StartCore(s: State, id: Id, r: Request, now: nat)
    requires r.StartRequest? && (StartOp, id) !in s.operations && |s.operations| < s.profile.maxRequests
    requires s.lastNow <= now
    ensures var (t, result) := StartBody(Core(Advance(Core(s), now)), r, now);
            && Core(StartStage(s, id, r, now).0) == Core(if result.accepted then Advance(Core(t), now) else t)
            && StartStage(s, id, r, now).1 == Answer(result)
            && StartStage(s, id, r, now).0.role == s.role
  {
    AdvanceCore(s, now);
    var s1 := Advance(s, now);
    StartBodyCore(s1, r, now);
    var (s2, result) := StartBody(s1, r, now);
    var s3 := Remember(s2, id, r, result);
    assert Core(s3) == Core(s2);
    AdvanceCore(s3, now);
    AdvanceCore(s2, now);
    assert s1.profile == Core(s1).profile == Core(Advance(Core(s), now)).profile;
    assert Admit(s, id, r, now) == Fresh(s1) by { AdvanceKeepsProfile(s, now); }
    hide Advance, StartBody, Admit, Core, Remember;
    assert Core(Core(s2)) == Core(s2) by { CoreTwice(s2); }
    AdvanceCore(Core(s2), now);
  }

  lemma CoreTwice(s: State)
    ensures Core(Core(s)) == Core(s)
  {
  }

  lemma AdvanceKeepsProfile(s: State, now: nat)
    ensures Advance(s, now).profile == s.profile
  {
  }

  /** Starting both with requests of their own ids starts them in step. */
  lemma StartTogether(s: State, t: State, sid: Id, tid: Id, r: Request, now: nat)
    requires InStep(s, t) && r.StartRequest?
    requires (StartOp, sid) !in s.operations && (StartOp, tid) !in t.operations
    requires |s.operations| < s.profile.maxRequests && |t.operations| < t.profile.maxRequests
    ensures InStep(StartStage(s, sid, r, now).0, StartStage(t, tid, r, now).0)
    ensures StartStage(s, sid, r, now).1 == StartStage(t, tid, r, now).1
    ensures StartStage(s, sid, r, now).0.role == s.role && StartStage(t, tid, r, now).0.role == t.role
  {
    assert s.lastNow == Core(s).lastNow == Core(t).lastNow == t.lastNow;
    if s.lastNow <= now {
      StartCore(s, sid, r, now);
      StartCore(t, tid, r, now);
      hide StartStage, Advance, StartBody;
    }
  }
}
