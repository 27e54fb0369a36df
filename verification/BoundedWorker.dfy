/** The single-flight worker as a protocol: callers submit, poll, invalidate and
    close, while the executor starts and finishes tasks at any moment. */
module BoundedWorkers {
  import opened Options

  datatype Versions = Versions(map_: int, topology: int, epoch: string)

  predicate Legal(v: Versions) { v.map_ >= 0 && v.topology >= 0 && v.epoch != "" }

  datatype Outcome = Returned(value: int) | Failure | Cancelled

  datatype Task = Queued | Running | Done(outcome: Outcome)

  datatype Item = Item(id: nat, deadline: real, startedAt: real, versions: Versions, generation: nat)

  datatype Status = Completed(value: int) | Failed | Timeout | Discarded

  datatype Reply =
    | Silent
    | Submitted(id: nat)
    | Report(id: nat, status: Status, startedAt: real, completedAt: real, versions: Versions)
    | BadContext | Closed | Busy

  /** The worker's fields and the executor's tasks; task id k is tasks[k - 1]. */
  datatype State = State(item: Option<Item>, nextId: nat, generation: nat, closed: bool, tasks: seq<Task>)

  const INITIAL := State(None, 1, 0, false, [])

  predicate Finished(s: State, id: nat) {
    0 < id <= |s.tasks| && s.tasks[id - 1].Done?
  }

  function SubmitStep(s: State, v: Versions, now: real, timeout: real): (State, Reply) {
    if !Legal(v) then (s, BadContext)
    else if s.closed then (s, Closed)
    else if s.item.Some? && !Finished(s, s.item.value.id) then (s, Busy)
    else (s.(item := Some(Item(s.nextId, now + timeout, now, v, s.generation)), nextId := s.nextId + 1,
             tasks := s.tasks + [Queued]), Submitted(s.nextId))
  }

  function InvalidateStep(s: State): State { s.(generation := s.generation + 1) }

  function Released(s: State, id: nat): State { if Finished(s, id) then s.(item := None) else s }

  function PollStep(s: State, v: Versions, now: real): (State, Reply) {
    if !Legal(v) then (s, BadContext)
    else if s.item.None? then (s, Silent)
    else
      var item := s.item.value;
      if v != item.versions || item.generation != s.generation then
        (Released(s, item.id), Report(item.id, Discarded, item.startedAt, now, item.versions))
      else if now >= item.deadline then
        (Released(s, item.id), Report(item.id, Timeout, item.startedAt, now, item.versions))
      else if !Finished(s, item.id) then (s, Silent)
      else
        var outcome := s.tasks[item.id - 1].outcome;
        (s.(item := None),
         Report(item.id, if outcome.Returned? then Completed(outcome.value) else Failed, item.startedAt, now,
                item.versions))
  }

  /** Closing cancels a task that has not started. */
  function CloseStep(s: State): State {
    if s.closed then s
    else if s.item.Some? && 0 < s.item.value.id <= |s.tasks| && s.tasks[s.item.value.id - 1].Queued? then
      s.(closed := true, tasks := s.tasks[s.item.value.id - 1 := Done(Cancelled)])
    else s.(closed := true)
  }

  /** The executor starts a queued task. */
  function Start(s: State, id: nat): State {
    if 0 < id <= |s.tasks| && s.tasks[id - 1].Queued? then s.(tasks := s.tasks[id - 1 := Running]) else s
  }

  /** The executor finishes a running task. */
  function Finish(s: State, id: nat, outcome: Outcome): State {
    if 0 < id <= |s.tasks| && s.tasks[id - 1].Running? then s.(tasks := s.tasks[id - 1 := Done(outcome)]) else s
  }

  datatype Op =
    | SubmitOp(versions: Versions, now: real)
    | PollOp(versions: Versions, now: real)
    | InvalidateOp
    | CloseOp
    | StartOp(id: nat)
    | FinishOp(id: nat, outcome: Outcome)

  function Step(s: State, op: Op, timeout: real): (State, Reply) {
    match op
    case SubmitOp(v, now) => SubmitStep(s, v, now, timeout)
    case PollOp(v, now) => PollStep(s, v, now)
    case InvalidateOp => (InvalidateStep(s), Silent)
    case CloseOp => (CloseStep(s), Silent)
    case StartOp(id) => (Start(s, id), Silent)
    case FinishOp(id, outcome) => (Finish(s, id, outcome), Silent)
  }

  function Run(ops: seq<Op>, timeout: real): State {
    if ops == [] then INITIAL else Step(Run(ops[..|ops| - 1], timeout), ops[|ops| - 1], timeout).0
  }

  function ReplyAt(ops: seq<Op>, i: nat, timeout: real): Reply
    requires i < |ops|
  {
    Step(Run(ops[..i], timeout), ops[i], timeout).1
  }

  // --------------------------------------------------------------- invariant

  /** The retained item is the newest task, and every other task is done. */
  ghost predicate Inv(s: State) {
    && s.nextId == |s.tasks| + 1
    && (s.item.Some? ==> s.item.value.id == |s.tasks| > 0 && s.item.value.generation <= s.generation)
    && forall k :: 0 <= k < |s.tasks| && !s.tasks[k].Done? ==> s.item.Some? && k == |s.tasks| - 1
  }

  lemma StepInv(s: State, op: Op, timeout: real)
    requires Inv(s)
    ensures Inv(Step(s, op, timeout).0)
  {
  }

  lemma {:induction false} RunInv(ops: seq<Op>, timeout: real)
    ensures Inv(Run(ops, timeout))
  {
    if ops != [] {
      RunInv(ops[..|ops| - 1], timeout);
      StepInv(Run(ops[..|ops| - 1], timeout), ops[|ops| - 1], timeout);
    }
  }

  /** At most one unfinished task ever exists, and a legal submission on an open
      worker is refused exactly while one does. */
  lemma SingleFlight(ops: seq<Op>, timeout: real, v: Versions, now: real)
    ensures var s := Run(ops, timeout);
            && (forall j, k :: 0 <= j < |s.tasks| && !s.tasks[j].Done? && 0 <= k < |s.tasks| ==>
                  s.tasks[k].Done? || j == k)
            && (Legal(v) && !s.closed ==>
                 (SubmitStep(s, v, now, timeout).1 == Busy <==> exists k :: 0 <= k < |s.tasks| && !s.tasks[k].Done?))
  {
    RunInv(ops, timeout);
  }

  // -------------------------------------------------------------- whole runs

  lemma RunSnoc(ops: seq<Op>, n: nat, timeout: real)
    requires n < |ops|
    ensures Run(ops[..n + 1], timeout) == Step(Run(ops[..n], timeout), ops[n], timeout).0
  {
    assert ops[..n + 1][..n] == ops[..n];
  }

  /** Ids and generations only grow along a run. */
  lemma {:induction false} Grows(ops: seq<Op>, i: nat, j: nat, timeout: real)
    requires i <= j <= |ops|
    ensures Run(ops[..i], timeout).nextId <= Run(ops[..j], timeout).nextId
    ensures Run(ops[..i], timeout).generation <= Run(ops[..j], timeout).generation
    ensures (exists k :: i <= k < j && ops[k].InvalidateOp?) ==>
            Run(ops[..i], timeout).generation < Run(ops[..j], timeout).generation
    decreases j
  {
    if i < j {
      Grows(ops, i, j - 1, timeout);
      RunSnoc(ops, j - 1, timeout);
    }
  }

  /** Request ids strictly increase. */
  lemma IdsIncrease(ops: seq<Op>, i: nat, j: nat, timeout: real)
    requires i < j < |ops| && ReplyAt(ops, i, timeout).Submitted? && ReplyAt(ops, j, timeout).Submitted?
    ensures ReplyAt(ops, i, timeout).id < ReplyAt(ops, j, timeout).id
  {
    RunSnoc(ops, i, timeout);
    Grows(ops, i + 1, j, timeout);
  }

  predicate Final(r: Reply) { r.Report? && (r.status.Completed? || r.status.Failed?) }

  /** Once a task is given up or reported, no later item carries its id. */
  lemma {:induction false} NeverReturns(ops: seq<Op>, i: nat, j: nat, id: nat, timeout: real)
    requires i <= j <= |ops| && Run(ops[..i], timeout).item.None? && id < Run(ops[..i], timeout).nextId
    ensures Run(ops[..j], timeout).item.Some? ==> Run(ops[..j], timeout).item.value.id > id
    decreases j
  {
    if i < j {
      NeverReturns(ops, i, j - 1, id, timeout);
      Grows(ops, i, j - 1, timeout);
      RunSnoc(ops, j - 1, timeout);
    }
  }

  /** Each request id gets at most one completed or failed report, and nothing is
      reported about it afterwards. */
  lemma AtMostOneFinal(ops: seq<Op>, i: nat, j: nat, timeout: real)
    requires i < j < |ops| && Final(ReplyAt(ops, i, timeout)) && ReplyAt(ops, j, timeout).Report?
    ensures ReplyAt(ops, i, timeout).id < ReplyAt(ops, j, timeout).id
  {
    var id := ReplyAt(ops, i, timeout).id;
    RunInv(ops[..i], timeout);
    RunSnoc(ops, i, timeout);
    NeverReturns(ops, i + 1, j, id, timeout);
  }

  /** Op i submitted the item that is held after n steps. */
  ghost predicate Submits(ops: seq<Op>, i: nat, n: nat, timeout: real) {
    && i < n <= |ops| && ops[i].SubmitOp? && Run(ops[..n], timeout).item.Some?
    && var item := Run(ops[..n], timeout).item.value;
       && ReplyAt(ops, i, timeout) == Submitted(item.id)
       && item.versions == ops[i].versions && item.deadline == ops[i].now + timeout && item.startedAt == ops[i].now
       && item.generation == Run(ops[..i], timeout).generation
  }

  lemma {:induction false} ItemWasSubmitted(ops: seq<Op>, n: nat, timeout: real) returns (i: nat)
    requires n <= |ops| && Run(ops[..n], timeout).item.Some?
    ensures Submits(ops, i, n, timeout)
    decreases n
  {
    RunSnoc(ops, n - 1, timeout);
    if ReplyAt(ops, n - 1, timeout).Submitted? {
      i := n - 1;
    } else {
      i := ItemWasSubmitted(ops, n - 1, timeout);
    }
  }

  /** A task becomes done only by a matching finish or a cancellation, and stays. */
  lemma DoneByStep(s: State, op: Op, k: nat, timeout: real)
    requires Inv(s) && k < |Step(s, op, timeout).0.tasks| && Step(s, op, timeout).0.tasks[k].Done?
    ensures var outcome := Step(s, op, timeout).0.tasks[k].outcome;
            || (k < |s.tasks| && s.tasks[k] == Done(outcome))
            || outcome.Cancelled?
            || op == FinishOp(k + 1, outcome)
  {
  }

  /** A finished task was finished by the executor with that outcome, or cancelled. */
  lemma {:induction false} OutcomeIsReal(ops: seq<Op>, n: nat, k: nat, timeout: real)
    requires n <= |ops| && k < |Run(ops[..n], timeout).tasks| && Run(ops[..n], timeout).tasks[k].Done?
    ensures var outcome := Run(ops[..n], timeout).tasks[k].outcome;
            outcome.Cancelled? || exists m :: 0 <= m < n && ops[m] == FinishOp(k + 1, outcome)
    decreases n
  {
    assert n > 0;
    RunSnoc(ops, n - 1, timeout);
    hide Run;
    var before := Run(ops[..n - 1], timeout);
    RunInv(ops[..n - 1], timeout);
    DoneByStep(before, ops[n - 1], k, timeout);
    hide Step, Inv;
    if k < |before.tasks| && before.tasks[k].Done? { OutcomeIsReal(ops, n - 1, k, timeout); }
  }

  /** A completed report is fresh: its request was submitted under the very versions
      polled with, nothing was invalidated in between, the deadline had not passed,
      and the value is the one the executor produced for that request. */
  lemma CompletedIsFresh(ops: seq<Op>, j: nat, timeout: real) returns (i: nat)
    requires j < |ops| && ReplyAt(ops, j, timeout).Report? && ReplyAt(ops, j, timeout).status.Completed?
    ensures i < j && ops[i].SubmitOp? && ops[j].PollOp?
    ensures ReplyAt(ops, i, timeout) == Submitted(ReplyAt(ops, j, timeout).id)
    ensures ops[i].versions == ops[j].versions && ops[j].now < ops[i].now + timeout
    ensures forall k :: i <= k < j ==> !ops[k].InvalidateOp?
    ensures var report := ReplyAt(ops, j, timeout);
            exists m :: 0 <= m < j && ops[m] == FinishOp(report.id, Returned(report.status.value))
  {
    var s := Run(ops[..j], timeout);
    RunInv(ops[..j], timeout);
    i := ItemWasSubmitted(ops, j, timeout);
    Grows(ops, i, j, timeout);
    OutcomeIsReal(ops, j, s.item.value.id - 1, timeout);
  }

  // ----------------------------------------- when a request can still complete

  /** The last reply of the run completes the request. */
  predicate EndsCompleting(ops: seq<Op>, id: nat, timeout: real) {
    ops != []
    && var reply := ReplyAt(ops, |ops| - 1, timeout);
       reply.Report? && reply.id == id && reply.status.Completed?
  }

  /** Some continuation of the run completes the request. */
  ghost predicate CanComplete(ops: seq<Op>, id: nat, timeout: real) {
    exists more :: EndsCompleting(ops + more, id, timeout)
  }

  /** The request is held, of the current generation, and its task unfinished. */
  ghost predicate Open(s: State, id: nat) {
    s.item.Some? && s.item.value.id == id && s.item.value.generation == s.generation && !Finished(s, id)
  }

  /** The items held at two points of a run under one id are the same item. */
  lemma {:induction false} SameItem(ops: seq<Op>, i: nat, j: nat, timeout: real)
    requires i <= j <= |ops| && Run(ops[..i], timeout).item.Some? && Run(ops[..j], timeout).item.Some?
    requires Run(ops[..j], timeout).item.value.id == Run(ops[..i], timeout).item.value.id
    ensures Run(ops[..j], timeout).item == Run(ops[..i], timeout).item
    decreases j
  {
    if i < j {
      var id := Run(ops[..i], timeout).item.value.id;
      RunSnoc(ops, j - 1, timeout);
      RunInv(ops[..i], timeout);
      RunInv(ops[..j - 1], timeout);
      RunInv(ops[..j], timeout);
      Grows(ops, i, j - 1, timeout);
      var before := Run(ops[..j - 1], timeout);
      hide Run, Inv;
      StepKeepsItem(before, ops[j - 1], timeout);
      if before.item.Some? && before.item.value.id == id { SameItem(ops, i, j - 1, timeout); }
      NewIdIsLater(before, ops[j - 1], id, timeout);
    }
  }

  lemma StepKeepsItem(s: State, op: Op, timeout: real)
    ensures var t := Step(s, op, timeout).0;
            t.item.Some? ==> t.item == s.item || t.item.value.id == s.nextId
  {
  }

  lemma NewIdIsLater(s: State, op: Op, id: nat, timeout: real)
    requires id < s.nextId
    ensures var t := Step(s, op, timeout).0;
            t.item.Some? && t.item.value.id == id ==> s.item.Some? && s.item.value.id == id && t.item == s.item
  {
  }

  lemma HeldIdIsUsed(ops: seq<Op>, i: nat, timeout: real)
    requires i <= |ops| && Run(ops[..i], timeout).item.Some?
    ensures Run(ops[..i], timeout).item.value.id < Run(ops[..i], timeout).nextId
  {
    RunInv(ops[..i], timeout);
  }

  lemma RunAppend(ops: seq<Op>, op: Op, timeout: real)
    ensures Run(ops + [op], timeout) == Step(Run(ops, timeout), op, timeout).0
    ensures ReplyAt(ops + [op], |ops|, timeout) == Step(Run(ops, timeout), op, timeout).1
  {
    assert (ops + [op])[..|ops|] == ops;
  }

  /** An open request completes: start and finish its task, then poll in time. */
  lemma OpenCompletes(ops: seq<Op>, id: nat, timeout: real)
    requires Open(Run(ops, timeout), id)
    ensures CanComplete(ops, id, timeout)
  {
    RunInv(ops, timeout);
    var s := Run(ops, timeout);
    var item := s.item.value;
    assert ops[..|ops|] == ops;
    var j := ItemWasSubmitted(ops, |ops|, timeout);
    assert Legal(item.versions);
    var start, finish := StartOp(id), FinishOp(id, Returned(0));
    var poll := PollOp(item.versions, item.deadline - 1.0);
    RunAppend(ops, start, timeout);
    RunAppend(ops + [start], finish, timeout);
    RunAppend(ops + [start] + [finish], poll, timeout);
    hide Run;
    FinishesAndReports(s, id, timeout);
    assert ops + [start] + [finish] + [poll] == ops + [start, finish, poll];
    assert EndsCompleting(ops + [start, finish, poll], id, timeout);
  }

  lemma FinishesAndReports(s: State, id: nat, timeout: real)
    requires Inv(s) && Open(s, id) && Legal(s.item.value.versions)
    ensures var t := Step(Step(s, StartOp(id), timeout).0, FinishOp(id, Returned(0)), timeout).0;
            var reply := Step(t, PollOp(s.item.value.versions, s.item.value.deadline - 1.0), timeout).1;
            reply.Report? && reply.id == id && reply.status == Completed(0)
  {
  }

  /** A completion reports the item held then, which is open but for its task. */
  lemma CompletionIsHeld(s: State, op: Op, timeout: real)
    requires Step(s, op, timeout).1.Report? && Step(s, op, timeout).1.status.Completed?
    ensures op.PollOp? && s.item.Some? && s.item.value.id == Step(s, op, timeout).1.id
    ensures s.item.value.generation == s.generation && op.now < s.item.value.deadline
  {
  }

  /** A discarded or timed-out report leaves its request open exactly when it was
      open before, and drops it when its task is finished. */
  lemma GivenUp(s: State, op: Op, timeout: real)
    requires Step(s, op, timeout).1.Report?
    requires Step(s, op, timeout).1.status.Discarded? || Step(s, op, timeout).1.status.Timeout?
    ensures s.item.Some? && s.item.value.id == Step(s, op, timeout).1.id && op.PollOp?
    ensures Step(s, op, timeout).0 == (if Finished(s, s.item.value.id) then s.(item := None) else s)
    ensures Step(s, op, timeout).1.status.Timeout? ==>
              s.item.value.generation == s.generation && op.now >= s.item.value.deadline
  {
  }

  lemma {:induction false} GenerationCounts(ops: seq<Op>, i: nat, j: nat, timeout: real)
    requires i <= j <= |ops| && forall k :: i <= k < j ==> !ops[k].InvalidateOp?
    ensures Run(ops[..i], timeout).generation == Run(ops[..j], timeout).generation
    decreases j
  {
    if i < j {
      GenerationCounts(ops, i, j - 1, timeout);
      RunSnoc(ops, j - 1, timeout);
    }
  }

  /** A request that is not open never completes any more. */
  lemma ClosedNeverCompletes(ops: seq<Op>, more: seq<Op>, id: nat, timeout: real)
    requires id < Run(ops, timeout).nextId && EndsCompleting(ops + more, id, timeout) && more != []
    ensures Run(ops, timeout).item.Some? && Run(ops, timeout).item.value.id == id
    ensures Run(ops, timeout).item.value.generation == Run(ops, timeout).generation
  {
    var all, n := ops + more, |ops| + |more| - 1;
    assert all[..|ops|] == ops;
    var s, last := Run(ops, timeout), Run(all[..n], timeout);
    CompletionIsHeld(last, all[n], timeout);
    Grows(all, |ops|, n, timeout);
    hide Step;
    if s.item.None? {
      NeverReturns(all, |ops|, n, id, timeout);
    } else {
      if s.item.value.id != id { OtherNeverBecomes(all, |ops|, n, id, timeout); }
      SameItem(all, |ops|, n, timeout);
      RunInv(ops, timeout);
    }
  }

  /** An id below the next one is held later only if it is held now. */
  lemma {:induction false} OtherNeverBecomes(ops: seq<Op>, i: nat, j: nat, id: nat, timeout: real)
    requires i <= j <= |ops| && id < Run(ops[..i], timeout).nextId
    requires Run(ops[..i], timeout).item.Some? ==> Run(ops[..i], timeout).item.value.id != id
    ensures Run(ops[..j], timeout).item.Some? ==> Run(ops[..j], timeout).item.value.id != id
    decreases j
  {
    if i < j {
      OtherNeverBecomes(ops, i, j - 1, id, timeout);
      Grows(ops, i, j - 1, timeout);
      RunSnoc(ops, j - 1, timeout);
      NewIdIsLater(Run(ops[..j - 1], timeout), ops[j - 1], id, timeout);
      hide Step, Run;
    }
  }

  /** Exactly when a discarded or timed-out request can still complete: its task is
      unfinished at that report and nothing was invalidated since its submission. */
  lemma GivenUpCanComplete(ops: seq<Op>, j: nat, timeout: real)
    requires |ops| > 0 && j < |ops| - 1 && ReplyAt(ops, |ops| - 1, timeout).Report?
    requires ReplyAt(ops, |ops| - 1, timeout).status.Discarded? || ReplyAt(ops, |ops| - 1, timeout).status.Timeout?
    requires ReplyAt(ops, j, timeout) == Submitted(ReplyAt(ops, |ops| - 1, timeout).id)
    ensures var id := ReplyAt(ops, |ops| - 1, timeout).id;
            CanComplete(ops, id, timeout) <==>
              !Finished(Run(ops[..|ops| - 1], timeout), id) && forall k :: j < k < |ops| ==> !ops[k].InvalidateOp?
  {
    var n := |ops| - 1;
    var s := Run(ops[..n], timeout);
    GivenUp(s, ops[n], timeout);
    var id := s.item.value.id;
    assert ops[..n + 1] == ops;
    RunSnoc(ops, n, timeout);
    HeldIdIsUsed(ops, n, timeout);
    HeldSince(ops, j, n, timeout);
    OpenIff(ops, j, n, timeout);
    hide Run, Step;
    if !Finished(s, id) && s.item.value.generation == s.generation {
      OpenCompletes(ops, id, timeout);
    }
    assert ops + [] == ops;
    if more :| EndsCompleting(ops + more, id, timeout) {
      ClosedNeverCompletes(ops, more, id, timeout);
    }
  }

  /** The item held is the one its submission created. */
  lemma HeldSince(ops: seq<Op>, j: nat, n: nat, timeout: real)
    requires j < n <= |ops| && Run(ops[..n], timeout).item.Some?
    requires ReplyAt(ops, j, timeout) == Submitted(Run(ops[..n], timeout).item.value.id)
    ensures Run(ops[..n], timeout).item.value.generation == Run(ops[..j], timeout).generation && ops[j].SubmitOp?
  {
    var i := ItemWasSubmitted(ops, n, timeout);
    if i < j { IdsIncrease(ops, i, j, timeout); }
    if j < i { IdsIncrease(ops, j, i, timeout); }
  }

  lemma OpenIff(ops: seq<Op>, j: nat, n: nat, timeout: real)
    requires j < n < |ops| && n == |ops| - 1 && ops[n].PollOp? && ops[j].SubmitOp?
    ensures Run(ops[..j], timeout).generation == Run(ops[..n], timeout).generation <==>
            forall k :: j < k < |ops| ==> !ops[k].InvalidateOp?
  {
    Grows(ops, j, n, timeout);
    if forall k :: j < k < |ops| ==> !ops[k].InvalidateOp? { GenerationCounts(ops, j, n, timeout); }
  }

  /** A timed-out request completes later only if the clock ran back below its
      deadline: as long as no later poll is earlier than the one that reported the
      timeout, the timeout is final. */
  lemma TimeoutIsFinal(ops: seq<Op>, i: nat, j: nat, timeout: real)
    requires i < j < |ops| && ReplyAt(ops, i, timeout).Report? && ReplyAt(ops, i, timeout).status.Timeout?
    requires ReplyAt(ops, j, timeout).Report? && ReplyAt(ops, j, timeout).status.Completed?
    requires ReplyAt(ops, j, timeout).id == ReplyAt(ops, i, timeout).id
    ensures ops[i].PollOp? && ops[j].PollOp? && ops[j].now < ops[i].now
    ensures exists k :: 0 <= k < i && ops[k].SubmitOp? && ops[j].now < ops[k].now + timeout <= ops[i].now
  {
    GivenUp(Run(ops[..i], timeout), ops[i], timeout);
    CompletionIsHeld(Run(ops[..j], timeout), ops[j], timeout);
    SameItem(ops, i, j, timeout);
    var k := ItemWasSubmitted(ops, i, timeout);
    hide Run, Step;
    assert ops[k].SubmitOp? && ops[j].now < ops[k].now + timeout <= ops[i].now;
  }

  /** A discarded report is not the last word: the same request can still complete
      when its versions become current again. */
  lemma DiscardIsNotFinal()
    ensures exists ops: seq<Op>, i: nat, j: nat ::
      i < j < |ops| && ReplyAt(ops, i, 5.0).Report? && ReplyAt(ops, i, 5.0).status.Discarded?
      && ReplyAt(ops, j, 5.0).Report? && ReplyAt(ops, j, 5.0).status.Completed?
      && ReplyAt(ops, i, 5.0).id == ReplyAt(ops, j, 5.0).id
  {
    var first, second := Versions(1, 1, "a"), Versions(2, 1, "a");
    var ops := [SubmitOp(first, 0.0), PollOp(second, 1.0), StartOp(1), FinishOp(1, Returned(7)), PollOp(first, 2.0)];
    assert ops[..1] == [ops[0]] && ops[..1][..0] == [];
    RunSnoc(ops, 0, 5.0);
    RunSnoc(ops, 1, 5.0);
    RunSnoc(ops, 2, 5.0);
    RunSnoc(ops, 3, 5.0);
    assert ReplyAt(ops, 1, 5.0).status.Discarded?;
    assert ReplyAt(ops, 4, 5.0).status.Completed?;
  }

  // ------------------------------------------------- what every call answers

  /** The answer to a poll, from the submission of the held request, whether anything was
      invalidated since, and what the executor made of its task, if it finished. */
  ghost predicate Answers(reply: Reply, id: nat, submitted: Op, polled: Op, invalidated: bool,
                          task: Task, timeout: real)
    requires submitted.SubmitOp? && polled.PollOp?
  {
    if polled.versions == submitted.versions && !invalidated && polled.now < submitted.now + timeout && !task.Done? then
      reply == Silent
    else
      && reply.Report? && reply.id == id && reply.startedAt == submitted.now && reply.completedAt == polled.now
      && reply.versions == submitted.versions
      && (reply.status.Discarded? <==> polled.versions != submitted.versions || invalidated)
      && (reply.status.Timeout? <==>
           polled.versions == submitted.versions && !invalidated && polled.now >= submitted.now + timeout)
      && (reply.status.Failed? ==> task == Done(Failure) || task == Done(Cancelled))
      && (reply.status.Completed? ==> task == Done(Returned(reply.status.value)))
  }

  lemma PollHeld(s: State, v: Versions, now: real)
    requires Inv(s) && Legal(v) && s.item.Some?
    ensures var item := s.item.value;
            var (t, reply) := PollStep(s, v, now);
            && Answers(reply, item.id, SubmitOp(item.versions, item.startedAt), PollOp(v, now),
                       item.generation != s.generation, s.tasks[item.id - 1], item.deadline - item.startedAt)
            && (reply.Report? && s.tasks[item.id - 1].Done? ==> t == s.(item := None))
            && (!(reply.Report? && s.tasks[item.id - 1].Done?) ==> t == s)
  {
  }

  /** What a poll answers over every run: nothing while no request is held or while the
      held one is current, in time and unfinished; otherwise a report on it.  A finished
      request that is reported on is let go, and nothing else changes. */
  lemma PollExactly(ops: seq<Op>, n: nat, timeout: real) returns (k: nat)
    requires n < |ops| && ops[n].PollOp? && Legal(ops[n].versions)
    ensures var s, t := Run(ops[..n], timeout), Run(ops[..n + 1], timeout);
            if s.item.None? then ReplyAt(ops, n, timeout) == Silent && t == s
            else
              && k < n && ops[k].SubmitOp? && ReplyAt(ops, k, timeout) == Submitted(s.item.value.id)
              && 0 < s.item.value.id <= |s.tasks|
              && Answers(ReplyAt(ops, n, timeout), s.item.value.id, ops[k], ops[n],
                         exists j :: k <= j < n && ops[j].InvalidateOp?, s.tasks[s.item.value.id - 1], timeout)
              && t == if ReplyAt(ops, n, timeout).Report? && s.tasks[s.item.value.id - 1].Done?
                      then s.(item := None) else s
  {
    var s := Run(ops[..n], timeout);
    RunSnoc(ops, n, timeout);
    RunInv(ops[..n], timeout);
    k := 0;
    if s.item.Some? {
      k := ItemWasSubmitted(ops, n, timeout);
      Grows(ops, k, n, timeout);
      if forall j :: k <= j < n ==> !ops[j].InvalidateOp? { GenerationCounts(ops, k, n, timeout); }
      PollHeld(s, ops[n].versions, ops[n].now);
      hide Run, PollStep, Inv;
    }
  }

  /** Exactly how a submission is answered: bad versions first, then a closed worker, then
      an unfinished task; otherwise it is queued as the newest task and held from now. */
  lemma SubmitExactly(s: State, v: Versions, now: real, timeout: real)
    requires Inv(s)
    ensures var (t, reply) := SubmitStep(s, v, now, timeout);
            && (reply == BadContext <==> !Legal(v))
            && (reply == Closed <==> Legal(v) && s.closed)
            && (reply == Busy <==> Legal(v) && !s.closed && exists j :: 0 <= j < |s.tasks| && !s.tasks[j].Done?)
            && (!reply.Submitted? ==> t == s && reply in {BadContext, Closed, Busy})
            && (reply.Submitted? ==>
                 && reply.id == |s.tasks| + 1 && t.tasks == s.tasks + [Queued] && t.closed == s.closed
                 && t.item == Some(Item(reply.id, now + timeout, now, v, s.generation))
                 && t.generation == s.generation && t.nextId == reply.id + 1)
  {
    if s.item.Some? && !s.tasks[s.item.value.id - 1].Done? { assert !s.tasks[|s.tasks| - 1].Done?; }
  }

  /** A worker is closed exactly after a close. */
  lemma {:induction false} ClosedExactly(ops: seq<Op>, timeout: real)
    ensures Run(ops, timeout).closed <==> exists k :: 0 <= k < |ops| && ops[k].CloseOp?
  {
    if ops != [] {
      var n := |ops| - 1;
      ClosedExactly(ops[..n], timeout);
      assert forall k :: 0 <= k < n ==> ops[..n][k] == ops[k];
    }
  }

  /** Closing cancels the held task if it has not started, and leaves any other. */
  lemma CloseExactly(s: State, j: nat)
    requires Inv(s) && j < |s.tasks|
    ensures var t := CloseStep(s);
            && t.closed && |t.tasks| == |s.tasks| && t.item == s.item && t.generation == s.generation
            && t.tasks[j] == if s.tasks[j].Queued? && !s.closed then Done(Cancelled) else s.tasks[j]
  {
  }

  // ------------------------------------------------------- the worker object

  class BoundedWorker {
    const timeout: real
    var item: Option<Item>
    var nextId: nat
    var generation: nat
    var closed: bool
    var tasks: seq<Task>

    ghost function Abs(): State
      reads this
    {
      State(item, nextId, generation, closed, tasks)
    }

    ghost predicate Valid()
      reads this
    {
      Inv(Abs())
    }

    constructor (seconds: real)
      requires seconds > 0.0
      ensures Valid() && timeout == seconds && Abs() == INITIAL
    {
      timeout := seconds;
      item, nextId, generation, closed, tasks := None, 1, 0, false, [];
    }

    /** A task is finished when the executor has an outcome for it. */
    method Submit(versions: Versions, now: real) returns (reply: Reply)
      requires Valid()
      modifies this
      ensures Valid()
      ensures (Abs(), reply) == SubmitStep(old(Abs()), versions, now, timeout)
    {
      StepInv(Abs(), SubmitOp(versions, now), timeout);
      if !Legal(versions) { return BadContext; }
      if closed { return Closed; }
      if item.Some? {
        if !tasks[item.value.id - 1].Done? { return Busy; }
        item := None;
      }
      var id := nextId;
      nextId := nextId + 1;
      tasks := tasks + [Queued];
      item := Some(Item(id, now + timeout, now, versions, generation));
      return Submitted(id);
    }

    method Invalidate()
      requires Valid()
      modifies this
      ensures Valid()
      ensures Abs() == InvalidateStep(old(Abs()))
    {
      generation := generation + 1;
    }

    method Poll(versions: Versions, now: real) returns (reply: Reply)
      requires Valid()
      modifies this
      ensures Valid()
      ensures (Abs(), reply) == PollStep(old(Abs()), versions, now)
    {
      StepInv(Abs(), PollOp(versions, now), timeout);
      if !Legal(versions) { return BadContext; }
      if item.None? { return Silent; }
      var held := item.value;
      var task := tasks[held.id - 1];
      if versions != held.versions || held.generation != generation {
        if task.Done? { item := None; }
        return Report(held.id, Discarded, held.startedAt, now, held.versions);
      }
      if now >= held.deadline {
        if task.Done? { item := None; }
        return Report(held.id, Timeout, held.startedAt, now, held.versions);
      }
      if !task.Done? { return Silent; }
      item := None;
      var status := if task.outcome.Returned? then Completed(task.outcome.value) else Failed;
      return Report(held.id, status, held.startedAt, now, held.versions);
    }

    method Close()
      requires Valid()
      modifies this
      ensures Valid()
      ensures Abs() == CloseStep(old(Abs()))
    {
      StepInv(Abs(), CloseOp, timeout);
      if closed { return; }
      closed := true;
      if item.Some? && tasks[item.value.id - 1].Queued? {
        tasks := tasks[item.value.id - 1 := Done(Cancelled)];
      }
    }
  }
}
