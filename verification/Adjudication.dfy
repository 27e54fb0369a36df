/** Event adjudication: what the stage manager may conclude from timestamped
    intervals.  Events carry closed time intervals, so their order is often
    unknown; the verdict must never claim an order the intervals do not prove. */
module Adjudication {
  import opened Options

  type Id = nat

  datatype TerminalKind = NoKind | Capture | Arrival | Timeout | OfficialAbort | Ambiguous

  datatype Evidence = Estimate | SimTruth | Official

  datatype Truth = Unknown | False | True

  datatype EventData = Event(
    id: Id, stageId: Id, clockEpoch: Id, localizationEpoch: Id,
    kind: TerminalKind, evidence: Evidence, truth: Truth,
    lower: nat, upper: nat, inputs: seq<Id>, authorization: Id, zoneId: Id, note: Id)

  predicate Distinct(ids: seq<Id>) {
    forall i, j :: 0 <= i < j < |ids| ==> ids[i] != ids[j]
  }

  /** A validated rule event: a proper interval, an input kind and distinct inputs,
      at least one. */
  predicate ValidEvent(e: EventData) {
    e.lower <= e.upper && e.kind in {Capture, Arrival, OfficialAbort} && e.inputs != [] && Distinct(e.inputs)
  }

  type RuleEvent = e: EventData | ValidEvent(e)
    witness Event(0, 0, 0, 0, Capture, Estimate, Unknown, 0, 0, [0], 0, 0, 0)

  // ---------------------------------------------------------------- order

  /** The sort key (lower, upper, id), compared lexicographically. */
  predicate KeyLe(a: RuleEvent, b: RuleEvent) {
    || a.lower < b.lower
    || (a.lower == b.lower && a.upper < b.upper)
    || (a.lower == b.lower && a.upper == b.upper && a.id <= b.id)
  }

  ghost predicate Sorted(s: seq<RuleEvent>) {
    forall i, j :: 0 <= i < j < |s| ==> KeyLe(s[i], s[j])
  }

  ghost predicate DistinctIds(s: seq<RuleEvent>) {
    forall i, j :: 0 <= i < j < |s| ==> s[i].id != s[j].id
  }

  function Insert(e: RuleEvent, s: seq<RuleEvent>): seq<RuleEvent> {
    if s == [] || KeyLe(e, s[0]) then [e] + s else [s[0]] + Insert(e, s[1..])
  }

  lemma PrependSorted(e: RuleEvent, s: seq<RuleEvent>)
    requires Sorted(s) && forall x :: x in s ==> KeyLe(e, x)
    ensures Sorted([e] + s)
  {
    forall i, j | 0 <= i < j < |[e] + s| ensures KeyLe(([e] + s)[i], ([e] + s)[j]) {
      if i == 0 { assert s[j - 1] in s; } else { assert KeyLe(s[i - 1], s[j - 1]); }
    }
  }

  lemma {:induction false} InsertSorts(e: RuleEvent, s: seq<RuleEvent>)
    requires Sorted(s)
    ensures Sorted(Insert(e, s))
    ensures multiset(Insert(e, s)) == multiset(s) + multiset{e}
    ensures forall x :: x in Insert(e, s) <==> x == e || x in s
  {
    if s == [] {
    } else if KeyLe(e, s[0]) {
      forall x | x in s ensures KeyLe(e, x) {
        var i :| 0 <= i < |s| && s[i] == x;
        assert i == 0 || KeyLe(s[0], s[i]);
      }
      PrependSorted(e, s);
    } else {
      var rest := s[1..];
      assert s == [s[0]] + rest;
      InsertSorts(e, rest);
      assert forall x :: x in rest ==> KeyLe(s[0], x);
      PrependSorted(s[0], Insert(e, rest));
    }
  }

  function SortEvents(s: seq<RuleEvent>): (r: seq<RuleEvent>)
    ensures Sorted(r) && multiset(r) == multiset(s) && |r| == |s|
  {
    if s == [] then []
    else
      var tail := SortEvents(s[1..]);
      InsertSorts(s[0], tail);
      assert s == [s[0]] + s[1..];
      var r := Insert(s[0], tail);
      assert |multiset(r)| == |r| && |multiset(s)| == |s|;
      r
  }

  lemma SortKeepsMembers(s: seq<RuleEvent>)
    ensures forall e :: e in SortEvents(s) <==> e in s
  {
    forall e ensures e in SortEvents(s) <==> e in s {
      assert e in SortEvents(s) <==> e in multiset(SortEvents(s));
      assert e in s <==> e in multiset(s);
    }
  }

  /** Sorted sequences over the same distinct-id events are equal. */
  lemma {:induction false} SortedUnique(a: seq<RuleEvent>, b: seq<RuleEvent>)
    requires Sorted(a) && Sorted(b) && multiset(a) == multiset(b)
    requires forall x, y :: x in a && y in a && x.id == y.id ==> x == y
    ensures a == b
  {
    assert |multiset(a)| == |a| && |multiset(b)| == |b|;
    if a != [] {
      SameHead(a, b);
      TailMultiset(a);
      TailMultiset(b);
      SortedTail(a);
      SortedTail(b);
      hide Sorted;
      SortedUnique(a[1..], b[1..]);
    }
  }

  lemma SortedTail(s: seq<RuleEvent>)
    requires Sorted(s) && s != []
    ensures Sorted(s[1..])
  {
  }

  lemma SameHead(a: seq<RuleEvent>, b: seq<RuleEvent>)
    requires a != [] && b != [] && Sorted(a) && Sorted(b) && multiset(a) == multiset(b)
    requires forall x, y :: x in a && y in a && x.id == y.id ==> x == y
    ensures a[0] == b[0]
  {
    assert a[0] in multiset(b) && b[0] in multiset(a);
    var i :| 0 <= i < |b| && b[i] == a[0];
    var j :| 0 <= j < |a| && a[j] == b[0];
    assert i > 0 ==> KeyLe(b[0], b[i]);
    assert j > 0 ==> KeyLe(a[0], a[j]);
  }

  lemma TailMultiset(s: seq<RuleEvent>)
    requires s != []
    ensures s == [s[0]] + s[1..] && multiset(s[1..]) == multiset(s) - multiset{s[0]}
  {
    assert s == [s[0]] + s[1..];
  }

  lemma DistinctIdsInjective(s: seq<RuleEvent>)
    requires DistinctIds(s)
    ensures forall x, y :: x in s && y in s && x.id == y.id ==> x == y
  {
  }

  // ------------------------------------------------------------- conflicts

  /** Two events whose kinds differ and whose closed intervals intersect:
      nothing in the evidence says which came first. */
  predicate Rivals(a: RuleEvent, b: RuleEvent) {
    a.kind != b.kind && a.lower <= b.upper && b.lower <= a.upper
  }

  ghost predicate HasRivals(s: seq<RuleEvent>) {
    exists a, b :: a in s && b in s && Rivals(a, b)
  }

  /** The conflict test of the inner comparison loop; `second` sorts after `first`. */
  predicate Clash(first: RuleEvent, second: RuleEvent) {
    first.kind != second.kind && first.upper >= second.lower
  }

  function FirstRival(a: RuleEvent, rest: seq<RuleEvent>): Option<RuleEvent> {
    if rest == [] then None
    else if Clash(a, rest[0]) then Some(rest[0])
    else FirstRival(a, rest[1..])
  }

  function FirstConflict(c: seq<RuleEvent>): Option<(RuleEvent, RuleEvent)> {
    if c == [] then None
    else
      match FirstRival(c[0], c[1..])
      case Some(b) => Some((c[0], b))
      case None => FirstConflict(c[1..])
  }

  lemma {:induction false} FirstRivalFinds(a: RuleEvent, rest: seq<RuleEvent>)
    ensures FirstRival(a, rest).None? <==> forall b :: b in rest ==> !Clash(a, b)
    ensures FirstRival(a, rest).Some? ==>
      FirstRival(a, rest).value in rest && Clash(a, FirstRival(a, rest).value)
  {
    if rest != [] {
      FirstRivalFinds(a, rest[1..]);
      assert forall b :: b in rest <==> b == rest[0] || b in rest[1..];
    }
  }

  /** On a sorted comparison list the scan finds a pair exactly when some two
      events are rivals, and the pair it finds are rivals. */
  lemma {:induction false} FirstConflictFinds(c: seq<RuleEvent>)
    requires Sorted(c)
    ensures FirstConflict(c).Some? <==> HasRivals(c)
    ensures FirstConflict(c).Some? ==>
      var (a, b) := FirstConflict(c).value; a in c && b in c && Rivals(a, b)
  {
    if c != [] {
      var a, rest := c[0], c[1..];
      FirstRivalFinds(a, rest);
      FirstConflictFinds(rest);
      assert forall b :: b in c <==> b == a || b in rest;
      assert forall b :: b in rest ==> KeyLe(a, b);
      assert forall b :: b in rest ==> (Clash(a, b) <==> Rivals(a, b));
      if HasRivals(c) && !HasRivals(rest) {
        var x, y :| x in c && y in c && Rivals(x, y);
        assert x == a || y == a;
        assert Clash(a, if x == a then y else x);
      }
    }
  }

  // --------------------------------------------------------------- verdict

  function MaxEvidence(a: Evidence, b: Evidence): Evidence {
    if a.Official? || b.Official? then Official
    else if a.SimTruth? || b.SimTruth? then SimTruth
    else Estimate
  }

  function Strongest(s: seq<RuleEvent>): Evidence {
    if s == [] then Estimate else MaxEvidence(s[0].evidence, Strongest(s[1..]))
  }

  /** The outcome of one adjudication: a terminal verdict, an unresolved clash
      between estimates alone, or nothing to decide. */
  datatype Verdict = Decided(kind: TerminalKind, evidence: Evidence) | Contested | Open

  function Adjudicate(official: seq<RuleEvent>, pending: seq<RuleEvent>): Verdict {
    match FirstConflict(SortEvents(official + pending))
    case Some((a, b)) =>
      if official != [] then Decided(Ambiguous, MaxEvidence(a.evidence, b.evidence)) else Contested
    case None =>
      if official != [] then Decided(SortEvents(official)[0].kind, Strongest(official)) else Open
  }

  /** Each event has some true instant inside its reported interval. */
  ghost predicate TrueTimes(at: RuleEvent -> int, s: seq<RuleEvent>) {
    forall e :: e in s ==> e.lower <= at(e) <= e.upper
  }

  ghost predicate EarliestIn(e: RuleEvent, at: RuleEvent -> int, s: seq<RuleEvent>) {
    e in s && forall o :: o in s ==> at(e) <= at(o)
  }

  /** Sorting does not change whether there are rivals. */
  lemma SortKeepsRivals(s: seq<RuleEvent>)
    ensures HasRivals(SortEvents(s)) <==> HasRivals(s)
  {
    SortKeepsMembers(s);
    hide SortEvents, Rivals;
    if HasRivals(s) {
      var a, b :| a in s && b in s && Rivals(a, b);
      assert a in SortEvents(s) && b in SortEvents(s);
    }
  }

  /** AMBIGUOUS exactly when two known events of different kinds have
      intersecting intervals (given at least one official event). */
  lemma AmbiguousIffRivals(official: seq<RuleEvent>, pending: seq<RuleEvent>)
    requires official != []
    ensures Adjudicate(official, pending).Decided?
    ensures Adjudicate(official, pending).kind == Ambiguous <==> HasRivals(official + pending)
    ensures Adjudicate(official, pending).kind != Ambiguous ==>
      exists e :: e in official && e.kind == Adjudicate(official, pending).kind
  {
    FirstConflictFinds(SortEvents(official + pending));
    SortKeepsRivals(official + pending);
    SortKeepsMembers(official);
    hide SortEvents, FirstConflict, HasRivals;
    assert SortEvents(official)[0] in SortEvents(official);
  }

  /** Without official events a verdict is never reached. */
  lemma EstimatesAloneNeverDecide(pending: seq<RuleEvent>)
    ensures Adjudicate([], pending) == if HasRivals(pending) then Contested else Open
  {
    assert [] + pending == pending;
    FirstConflictFinds(SortEvents(pending));
    SortKeepsRivals(pending);
    hide SortEvents, FirstConflict, HasRivals;
  }

  /** The verdict never invents an order: whatever the true instants are, every
      official event that really came first has the latched kind. */
  lemma VerdictNeverInventsOrder(official: seq<RuleEvent>, pending: seq<RuleEvent>,
                                 at: RuleEvent -> int, first: RuleEvent)
    requires TrueTimes(at, official)
    requires EarliestIn(first, at, official)
    requires official != [] && Adjudicate(official, pending).kind != Ambiguous
    ensures first.kind == Adjudicate(official, pending).kind
  {
    var head := EarliestOfficial(official, pending);
    hide Adjudicate;
    assert first in official + pending && !Rivals(head, first);
    assert at(first) <= at(head);
  }

  /** Without a clash the result is the kind of the event first in key order. */
  lemma EarliestOfficial(official: seq<RuleEvent>, pending: seq<RuleEvent>) returns (head: RuleEvent)
    requires official != [] && Adjudicate(official, pending).kind != Ambiguous
    ensures head in official && head.kind == Adjudicate(official, pending).kind
    ensures forall e :: e in official ==> head.lower <= e.lower
    ensures forall e :: e in official + pending ==> !Rivals(head, e)
  {
    AmbiguousIffRivals(official, pending);
    SortKeepsMembers(official);
    head := SortEvents(official)[0];
    assert head in SortEvents(official);
    forall e | e in official ensures head.lower <= e.lower {
      assert e in SortEvents(official);
    }
    assert head in official + pending;
  }

  /** First of s in key order. */
  ghost predicate KeyLeast(e: RuleEvent, s: seq<RuleEvent>) {
    e in s && forall o :: o in s ==> KeyLe(e, o)
  }

  /** The kind that official and pending events call for, without sorting them. */
  ghost predicate CallsFor(official: seq<RuleEvent>, pending: seq<RuleEvent>, kind: TerminalKind) {
    if HasRivals(official + pending) then kind == Ambiguous
    else exists first :: KeyLeast(first, official) && first.kind == kind
  }

  /** The verdict's kind is exactly the one the known events call for. */
  lemma VerdictIsCalledFor(official: seq<RuleEvent>, pending: seq<RuleEvent>, kind: TerminalKind)
    requires official != []
    ensures Adjudicate(official, pending).Decided?
    ensures Adjudicate(official, pending).kind == kind <==> CallsFor(official, pending, kind)
  {
    AmbiguousIffRivals(official, pending);
    SortKeepsMembers(official);
    var head := SortEvents(official)[0];
    assert head in SortEvents(official);
    forall o | o in official ensures KeyLe(head, o) { assert o in SortEvents(official); }
    assert KeyLeast(head, official);
    if !HasRivals(official + pending) {
      SortedHeadDecides(official, pending);
      forall first | KeyLeast(first, official) ensures first.kind == head.kind {
        assert first in official + pending && head in official + pending && !Rivals(first, head);
      }
    }
  }

  lemma SortedHeadDecides(official: seq<RuleEvent>, pending: seq<RuleEvent>)
    requires official != [] && !HasRivals(official + pending)
    ensures SortEvents(official) != [] && Adjudicate(official, pending).kind == SortEvents(official)[0].kind
  {
    AmbiguousIffRivals(official, pending);
    SortKeepsMembers(official + pending);
    FirstConflictFinds(SortEvents(official + pending));
  }

  ghost predicate Within(t: int, e: RuleEvent) {
    e.lower <= t <= e.upper
  }

  /** Rivals are exactly the pairs of different kinds that could have happened at the
      same instant. */
  lemma RivalsCouldCoincide(a: RuleEvent, b: RuleEvent)
    requires a.kind != b.kind
    ensures Rivals(a, b) <==> exists t :: Within(t, a) && Within(t, b)
  {
    if Rivals(a, b) {
      var t := if a.lower < b.lower then b.lower else a.lower;
      assert Within(t, a) && Within(t, b);
    }
  }

  /** Whatever the true instants of the official events are, the first one has the
      given kind. */
  ghost predicate Settled(official: seq<RuleEvent>, kind: TerminalKind) {
    forall at: RuleEvent -> int, first ::
      TrueTimes(at, official) && EarliestIn(first, at, official) ==> first.kind == kind
  }

  /** e ends before any official event of another kind begins. */
  ghost predicate Precedes(e: RuleEvent, official: seq<RuleEvent>) {
    e in official && forall o :: o in official && o.kind != e.kind ==> e.upper < o.lower
  }

  lemma {:induction false} EarliestExists(s: seq<RuleEvent>, at: RuleEvent -> int) returns (first: RuleEvent)
    requires s != []
    ensures EarliestIn(first, at, s)
  {
    if |s| == 1 {
      first := s[0];
    } else {
      first := EarliestExists(s[1..], at);
      assert forall o :: o in s <==> o == s[0] || o in s[1..];
      if at(s[0]) < at(first) { first := s[0]; }
    }
  }

  /** An event that may begin before every end may have been the first. */
  lemma CouldBeFirst(o: RuleEvent, official: seq<RuleEvent>)
    requires o in official && forall x :: x in official ==> o.lower <= x.upper
    ensures exists at: RuleEvent -> int :: TrueTimes(at, official) && EarliestIn(o, at, official)
  {
    var early := (x: RuleEvent) => if x == o then o.lower else x.upper;
    assert TrueTimes(early, official) && EarliestIn(o, early, official);
  }

  lemma PrecedesSettles(e: RuleEvent, official: seq<RuleEvent>)
    requires Precedes(e, official)
    ensures Settled(official, e.kind)
  {
    forall at: RuleEvent -> int, first | TrueTimes(at, official) && EarliestIn(first, at, official)
      ensures first.kind == e.kind
    {
      assert at(first) <= at(e);
    }
  }

  /** The intervals settle which kind came first exactly when some official event ends
      before every official event of another kind begins. */
  lemma {:induction false} SettledExactlyWhen(official: seq<RuleEvent>)
    requires official != []
    ensures (exists kind :: Settled(official, kind)) <==> exists e :: Precedes(e, official)
  {
    if kind :| Settled(official, kind) {
      var late := (x: RuleEvent) => x.upper;
      var e := EarliestExists(official, late);
      assert TrueTimes(late, official);
      forall x | x in official ensures e.upper <= x.upper { assert late(e) <= late(x); }
      forall o | o in official && o.kind != e.kind ensures e.upper < o.lower {
        if o.lower <= e.upper { CouldBeFirst(o, official); }
      }
      assert Precedes(e, official);
    }
    if e :| Precedes(e, official) { PrecedesSettles(e, official); }
  }

  /** Exactly when AMBIGUOUS is declared although the official intervals settle the
      first kind. */
  lemma AvoidableAmbiguity(official: seq<RuleEvent>, pending: seq<RuleEvent>)
    requires official != []
    ensures Adjudicate(official, pending).Decided?
    ensures Adjudicate(official, pending).kind == Ambiguous && (exists kind :: Settled(official, kind))
            <==> HasRivals(official + pending) && exists e :: Precedes(e, official)
  {
    AmbiguousIffRivals(official, pending);
    SettledExactlyWhen(official);
    hide Adjudicate, HasRivals, Settled, Precedes;
  }

  function Seen(id: Id, kind: TerminalKind, lower: nat, upper: nat): RuleEvent
    requires lower <= upper && kind in {Capture, Arrival, OfficialAbort}
  {
    Event(id, 1, 1, 1, kind, Official, True, lower, upper, [0], 1, 0, 0)
  }

  lemma LaterRivals(a: RuleEvent, b: RuleEvent, c: RuleEvent)
    requires a.kind == c.kind && a.upper < b.lower && Rivals(b, c)
    ensures Adjudicate([a, b, c], []).Decided? && Adjudicate([a, b, c], []).kind == Ambiguous
    ensures Settled([a, b, c], a.kind)
  {
    hide Adjudicate;
    var official := [a, b, c];
    assert b in official && c in official && official + [] == official;
    AmbiguousIffRivals(official, []);
    assert Precedes(a, official);
    PrecedesSettles(a, official);
  }

  /** Such a case: a capture at 10 comes first for certain, yet an arrival and a second
      capture, both later, overlap. */
  lemma AmbiguousThoughSettled()
    ensures exists official: seq<RuleEvent> ::
      && official != [] && Adjudicate(official, []).Decided? && Adjudicate(official, []).kind == Ambiguous
      && Settled(official, Capture)
  {
    var a, b, c := Seen(1, Capture, 10, 10), Seen(2, Arrival, 20, 30), Seen(3, Capture, 25, 40);
    assert Rivals(b, c);
    hide Adjudicate, Settled;
    LaterRivals(a, b, c);
  }

  lemma {:induction false} StrongestIsMaximum(s: seq<RuleEvent>)
    ensures Strongest(s).Official? <==> exists e :: e in s && e.evidence.Official?
    ensures Strongest(s).Estimate? <==> forall e :: e in s ==> e.evidence.Estimate?
  {
    if s != [] {
      StrongestIsMaximum(s[1..]);
      assert forall e :: e in s <==> e == s[0] || e in s[1..];
    }
  }

  /** How much an evidence counts. */
  function Weight(e: Evidence): nat {
    match e case Estimate => 0 case SimTruth => 1 case Official => 2
  }

  /** The greatest evidence in s, that of some event. */
  ghost predicate GreatestEvidence(evidence: Evidence, s: seq<RuleEvent>) {
    (exists e :: e in s && e.evidence == evidence) && forall e :: e in s ==> Weight(e.evidence) <= Weight(evidence)
  }

  /** Rivals a before b, and no other pair of rivals comes before them in key order,
      comparing the earlier events first. */
  ghost predicate FirstRivals(a: RuleEvent, b: RuleEvent, s: seq<RuleEvent>) {
    && a in s && b in s && Rivals(a, b) && KeyLe(a, b)
    && forall x, y :: x in s && y in s && Rivals(x, y) && KeyLe(x, y) ==> KeyLe(a, x) && (x == a ==> KeyLe(b, y))
  }

  /** The evidence the known events call for: among rivals the greater one of the first
      pair, otherwise the greatest official one. */
  ghost predicate EvidenceFor(official: seq<RuleEvent>, pending: seq<RuleEvent>, evidence: Evidence) {
    if HasRivals(official + pending) then
      exists a, b :: FirstRivals(a, b, official + pending) && GreatestEvidence(evidence, [a, b])
    else GreatestEvidence(evidence, official)
  }

  lemma {:induction false} StrongestIsGreatest(s: seq<RuleEvent>)
    requires s != []
    ensures GreatestEvidence(Strongest(s), s)
  {
    assert s[0] in s;
    if |s| > 1 {
      StrongestIsGreatest(s[1..]);
      assert forall e :: e in s <==> e == s[0] || e in s[1..];
      var e :| e in s[1..] && e.evidence == Strongest(s[1..]);
    } else {
      assert Strongest(s[1..]) == Estimate;
    }
  }

  lemma {:induction false} FirstRivalIsLeast(a: RuleEvent, rest: seq<RuleEvent>)
    requires Sorted(rest) && FirstRival(a, rest).Some?
    ensures forall y :: y in rest && Clash(a, y) ==> KeyLe(FirstRival(a, rest).value, y)
  {
    assert forall y :: y in rest <==> y == rest[0] || y in rest[1..];
    if Clash(a, rest[0]) {
      assert forall y :: y in rest[1..] ==> KeyLe(rest[0], y);
    } else {
      FirstRivalIsLeast(a, rest[1..]);
    }
  }

  lemma RivalsClash(x: RuleEvent, y: RuleEvent)
    requires Rivals(x, y) && KeyLe(x, y)
    ensures Clash(x, y)
  {
  }

  lemma ClashRivals(x: RuleEvent, y: RuleEvent)
    requires Clash(x, y) && KeyLe(x, y)
    ensures Rivals(x, y) && Rivals(y, x)
  {
  }

  lemma {:induction false} FirstAtHead(h: RuleEvent, b: RuleEvent, rest: seq<RuleEvent>, c: seq<RuleEvent>)
    requires c == [h] + rest && Sorted(c) && b in rest && Clash(h, b)
    requires forall y :: y in rest && Clash(h, y) ==> KeyLe(b, y)
    requires forall x, y :: x in c && y in c && x.id == y.id ==> x == y
    ensures FirstRivals(h, b, c)
  {
    assert forall x :: x in rest ==> KeyLe(h, x) by {
      forall x | x in rest ensures KeyLe(h, x) {
        var i :| 0 <= i < |rest| && rest[i] == x;
        assert KeyLe(c[0], c[i + 1]);
      }
    }
    hide Clash, Rivals, Sorted;
    ClashRivals(h, b);
    forall x, y | x in c && y in c && Rivals(x, y) && KeyLe(x, y) ensures KeyLe(h, x) && (x == h ==> KeyLe(b, y)) {
      RivalsClash(x, y);
      RivalKinds(x, y);
    }
  }

  lemma RivalKinds(x: RuleEvent, y: RuleEvent)
    requires Rivals(x, y)
    ensures x != y
  {
  }

  lemma {:induction false} FirstInTail(h: RuleEvent, a: RuleEvent, b: RuleEvent,
                                       rest: seq<RuleEvent>, c: seq<RuleEvent>)
    requires c == [h] + rest && FirstRivals(a, b, rest) && forall y :: y in rest ==> !Clash(h, y) && KeyLe(h, y)
    requires forall x, y :: x in c && y in c && x.id == y.id ==> x == y
    ensures FirstRivals(a, b, c)
  {
    hide Clash, Rivals;
    forall x, y | x in c && y in c && Rivals(x, y) && KeyLe(x, y) ensures KeyLe(a, x) && (x == a ==> KeyLe(b, y)) {
      RivalsClash(x, y);
      RivalKinds(x, y);
      assert y == h ==> x == h;
    }
  }

  /** The scan finds the rivals that come first. */
  lemma {:induction false} FirstConflictIsFirst(c: seq<RuleEvent>)
    requires Sorted(c) && FirstConflict(c).Some? && forall x, y :: x in c && y in c && x.id == y.id ==> x == y
    ensures FirstRivals(FirstConflict(c).value.0, FirstConflict(c).value.1, c)
  {
    var h, rest := c[0], c[1..];
    assert c == [h] + rest;
    FirstRivalFinds(h, rest);
    SortedTail(c);
    assert forall x :: x in rest ==> KeyLe(h, x);
    hide Clash, FirstRivals, Sorted, KeyLe;
    if FirstRival(h, rest).Some? {
      FirstRivalIsLeast(h, rest);
      FirstAtHead(h, FirstRival(h, rest).value, rest, c);
    } else {
      FirstConflictIsFirst(rest);
      var (a, b) := FirstConflict(rest).value;
      FirstInTail(h, a, b, rest, c);
    }
  }

  lemma FirstRivalsSame(a: RuleEvent, b: RuleEvent, s: seq<RuleEvent>, t: seq<RuleEvent>)
    requires FirstRivals(a, b, s) && forall e :: e in s <==> e in t
    ensures FirstRivals(a, b, t)
  {
    hide Rivals, KeyLe;
  }

  lemma GreaterOfTwo(a: RuleEvent, b: RuleEvent)
    ensures GreatestEvidence(MaxEvidence(a.evidence, b.evidence), [a, b])
  {
    assert a in [a, b] && b in [a, b];
  }

  /** The verdict latches exactly the evidence the known events call for. */
  lemma VerdictEvidence(official: seq<RuleEvent>, pending: seq<RuleEvent>)
    requires official != []
    requires forall x, y :: x in official + pending && y in official + pending && x.id == y.id ==> x == y
    ensures Adjudicate(official, pending).Decided?
    ensures EvidenceFor(official, pending, Adjudicate(official, pending).evidence)
  {
    var known := official + pending;
    SortKeepsMembers(known);
    SortKeepsRivals(known);
    FirstConflictFinds(SortEvents(known));
    hide SortEvents, HasRivals, Strongest, FirstConflict, FirstRivals, GreatestEvidence, MaxEvidence;
    if HasRivals(known) {
      var (a, b) := FirstConflict(SortEvents(known)).value;
      FirstConflictIsFirst(SortEvents(known));
      FirstRivalsSame(a, b, SortEvents(known), known);
      GreaterOfTwo(a, b);
    } else {
      StrongestIsGreatest(official);
    }
  }

  lemma SameMembers(a: seq<RuleEvent>, b: seq<RuleEvent>)
    requires multiset(a) == multiset(b)
    ensures (forall e :: e in a <==> e in b) && |a| == |b|
  {
    assert |multiset(a)| == |a| && |multiset(b)| == |b|;
    forall e ensures e in a <==> e in b {
      assert e in a <==> e in multiset(a);
      assert e in b <==> e in multiset(b);
    }
  }

  lemma SortIgnoresOrder(a: seq<RuleEvent>, b: seq<RuleEvent>)
    requires multiset(a) == multiset(b)
    requires forall x, y :: x in a && y in a && x.id == y.id ==> x == y
    ensures SortEvents(a) == SortEvents(b)
  {
    SortKeepsMembers(a);
    SortedUnique(SortEvents(a), SortEvents(b));
  }

  lemma StrongestIgnoresOrder(a: seq<RuleEvent>, b: seq<RuleEvent>)
    requires multiset(a) == multiset(b)
    ensures Strongest(a) == Strongest(b)
  {
    SameMembers(a, b);
    StrongestIsMaximum(a);
    StrongestIsMaximum(b);
  }

  /** Arrival order is irrelevant: the verdict depends only on which events are
      official and which are pending. */
  lemma VerdictIgnoresArrivalOrder(official: seq<RuleEvent>, pending: seq<RuleEvent>,
                                   official': seq<RuleEvent>, pending': seq<RuleEvent>)
    requires DistinctIds(official + pending)
    requires multiset(official) == multiset(official') && multiset(pending) == multiset(pending')
    ensures Adjudicate(official, pending) == Adjudicate(official', pending')
  {
    DistinctIdsInjective(official + pending);
    SortIgnoresOrder(official + pending, official' + pending') by {
      assert multiset(official + pending) == multiset(official' + pending');
    }
    SortIgnoresOrder(official, official') by {
      assert forall e :: e in official ==> e in official + pending;
    }
    SameMembers(official, official');
    StrongestIgnoresOrder(official, official');
  }

  // --------------------------------------------- the comparison loops

  /** The two nested comparison loops, returning the first conflicting pair. */
  method ScanComparisons(c: seq<RuleEvent>) returns (r: Option<(RuleEvent, RuleEvent)>)
    ensures r == FirstConflict(c)
  {
    for index := 0 to |c|
      invariant FirstConflict(c) == FirstConflict(c[index..])
    {
      assert c[index..][1..] == c[index + 1..];
      for other := index + 1 to |c|
        invariant FirstRival(c[index], c[index + 1..]) == FirstRival(c[index], c[other..])
      {
        assert c[other..][1..] == c[other + 1..];
        if c[index].kind != c[other].kind && c[index].upper >= c[other].lower {
          return Some((c[index], c[other]));
        }
      }
    }
    return None;
  }

  /** The adjudication algorithm: sort, compare all pairs, take the earliest. */
  method Judge(official: seq<RuleEvent>, pending: seq<RuleEvent>) returns (v: Verdict)
    ensures v == Adjudicate(official, pending)
  {
    var events := SortEvents(official);
    var clash := ScanComparisons(SortEvents(official + pending));
    if clash.Some? {
      return if events != [] then Decided(Ambiguous, MaxEvidence(clash.value.0.evidence, clash.value.1.evidence))
             else Contested;
    }
    if events != [] {
      var evidence := Estimate;
      for i := 0 to |official|
        invariant MaxEvidence(evidence, Strongest(official[i..])) == Strongest(official)
      {
        assert official[i..][1..] == official[i + 1..];
        evidence := MaxEvidence(evidence, official[i].evidence);
      }
      return Decided(events[0].kind, evidence);
    }
    return Open;
  }
}
