/** Continuous-time option returns and the tabular value update.  The
    exponential discount exp(-beta * t) is passed in as a function with its
    defining facts. */
module OptionValues {
  import opened Arithmetic

  // ---------------------------------------------------------------- returns

  /** Discounting at rate beta: E(t) stands for exp(-beta * t). */
  ghost predicate IsDiscount(e: real -> real) {
    && e(0.0) == 1.0
    && (forall s, d :: Composes(e, s, d))
    && forall t :: t >= 0.0 ==> 0.0 < e(t) <= 1.0
  }

  ghost predicate Composes(e: real -> real, s: real, d: real) { e(s + d) == e(s) * e(d) }

  /** A reward rate held over [start, end] seconds after the option start. */
  datatype RateSegment = RateSegment(start: real, end: real, rate: real)

  datatype Component = Component(segments: seq<RateSegment>, impulse: real)

  datatype Discounted = Discounted(reward: real, duration: real, discount: real)

  /** Integral of the discount over one segment. */
  function Factor(s: RateSegment, beta: real, e: real -> real): real
    requires beta >= 0.0
  {
    if beta == 0.0 then s.end - s.start else e(s.start) * (1.0 - e(s.end - s.start)) / beta
  }

  function SegmentSum(segments: seq<RateSegment>, beta: real, e: real -> real): real
    requires beta >= 0.0
  {
    if segments == [] then 0.0
    else Times(segments[0].rate, Factor(segments[0], beta, e)) + SegmentSum(segments[1..], beta, e)
  }

  function ComponentReturn(c: Component, beta: real, duration: real, e: real -> real): real
    requires beta >= 0.0
  {
    SegmentSum(c.segments, beta, e) + (if c.impulse != 0.0 then Times(e(duration), c.impulse) else 0.0)
  }

  function RewardSum(components: seq<Component>, beta: real, duration: real, e: real -> real): real
    requires beta >= 0.0
  {
    if components == [] then 0.0
    else ComponentReturn(components[0], beta, duration, e) + RewardSum(components[1..], beta, duration, e)
  }

  function DiscountedReturn(components: seq<Component>, beta: real, duration: real, e: real -> real): Discounted
    requires beta >= 0.0
  {
    Discounted(RewardSum(components, beta, duration, e), duration, e(duration))
  }

  /** Segments in order, not overlapping, inside [from, to]. */
  ghost predicate Disjoint(segments: seq<RateSegment>, from: real, to: real) {
    && (forall i :: 0 <= i < |segments| ==> from <= segments[i].start < segments[i].end <= to)
    && forall i, j :: 0 <= i < j < |segments| ==> segments[i].end <= segments[j].start
  }

  /** The integral is the drop of the discount over the segment, divided by beta. */
  lemma FactorIsDrop(s: RateSegment, beta: real, e: real -> real)
    requires IsDiscount(e) && beta > 0.0
    ensures Factor(s, beta, e) == (e(s.start) - e(s.end)) / beta
  {
    var d := s.end - s.start;
    assert Composes(e, s.start, d) && s.start + d == s.end;
    assert e(s.start) * (1.0 - e(d)) == e(s.start) - e(s.end);
  }

  lemma DiscountDecreases(e: real -> real, s: real, t: real)
    requires IsDiscount(e) && 0.0 <= s <= t
    ensures e(t) <= e(s)
  {
    var d := t - s;
    assert Composes(e, s, d) && s + d == t;
    Shrink(e(s), e(d));
  }

  lemma Shrink(x: real, y: real)
    requires x >= 0.0 && y <= 1.0
    ensures x * y <= x
  {
    assert x * (1.0 - y) >= 0.0;
  }

  lemma SplitFactor(s: RateSegment, middle: real, beta: real, e: real -> real)
    requires IsDiscount(e) && beta >= 0.0
    ensures Factor(s.(end := middle), beta, e) + Factor(s.(start := middle), beta, e) == Factor(s, beta, e)
  {
    if beta > 0.0 {
      FactorIsDrop(s.(end := middle), beta, e);
      FactorIsDrop(s.(start := middle), beta, e);
      FactorIsDrop(s, beta, e);
      QuotientSum(e(s.start) - e(middle), e(middle) - e(s.end), beta);
      hide Factor, IsDiscount;
    }
  }

  // ------------------------------------------------ what a return amounts to

  /** Rate times what passes of `weight` over the segment, summed. */
  function Passing(segments: seq<RateSegment>, weight: real -> real): real {
    if segments == [] then 0.0
    else Times(segments[0].rate, weight(segments[0].start) - weight(segments[0].end)) + Passing(segments[1..], weight)
  }

  function AllPassing(components: seq<Component>, weight: real -> real): real {
    if components == [] then 0.0 else Passing(components[0].segments, weight) + AllPassing(components[1..], weight)
  }

  function Impulses(components: seq<Component>): real {
    if components == [] then 0.0 else components[0].impulse + Impulses(components[1..])
  }

  lemma {:induction false} PassingRates(segments: seq<RateSegment>, beta: real, e: real -> real)
    requires IsDiscount(e) && beta > 0.0
    ensures Times(beta, SegmentSum(segments, beta, e)) == Passing(segments, e)
  {
    if segments == [] {
      assert Times(beta, 0.0) == 0.0;
    } else {
      var s := segments[0];
      PassingRates(segments[1..], beta, e);
      FactorIsDrop(s, beta, e);
      BackToDrop(s.rate, Factor(s, beta, e), beta, e(s.start) - e(s.end));
      TimesAdd(beta, Times(s.rate, Factor(s, beta, e)), SegmentSum(segments[1..], beta, e));
      hide Times, Factor, IsDiscount;
    }
  }

  /** The discounted reward: beta times it is, for each rate, what the discount loses
      while the rate is held, and for each impulse its share at the end.  The discount
      is that of the whole duration. */
  lemma {:induction false} ReturnExactly(components: seq<Component>, beta: real, duration: real, e: real -> real)
    requires IsDiscount(e) && beta > 0.0
    ensures var d := DiscountedReturn(components, beta, duration, e);
            && Times(beta, d.reward) ==
               AllPassing(components, e) + Times(beta, Times(e(duration), Impulses(components)))
            && d.discount == e(duration) && d.duration == duration
  {
    if components == [] {
      assert Times(beta, 0.0) == 0.0 && Times(e(duration), 0.0) == 0.0;
    } else {
      var c, rest := components[0], components[1..];
      ReturnExactly(rest, beta, duration, e);
      PassingRates(c.segments, beta, e);
      assert Times(e(duration), 0.0) == 0.0;
      hide Times, SegmentSum, Passing, IsDiscount;
      var share := Times(e(duration), c.impulse);
      assert ComponentReturn(c, beta, duration, e) == SegmentSum(c.segments, beta, e) + share;
      TimesAdd(beta, ComponentReturn(c, beta, duration, e), RewardSum(rest, beta, duration, e));
      TimesAdd(beta, SegmentSum(c.segments, beta, e), share);
      TimesAdd(e(duration), c.impulse, Impulses(rest));
      TimesAdd(beta, share, Times(e(duration), Impulses(rest)));
    }
  }

  function Elapsed(t: real): real { -t }

  /** Without discounting the reward is the rates times their lengths, and the impulses. */
  lemma {:induction false} UndiscountedReturn(components: seq<Component>, duration: real, e: real -> real)
    ensures var d := DiscountedReturn(components, 0.0, duration, e);
            d.reward == AllPassing(components, Elapsed) + Times(e(duration), Impulses(components))
  {
    if components == [] {
      assert Times(e(duration), 0.0) == 0.0;
    } else {
      var c, rest := components[0], components[1..];
      UndiscountedReturn(rest, duration, e);
      UndiscountedRates(c.segments, e);
      assert Times(e(duration), 0.0) == 0.0;
      TimesAdd(e(duration), c.impulse, Impulses(rest));
      hide Times, SegmentSum, Passing;
    }
  }

  lemma {:induction false} UndiscountedRates(segments: seq<RateSegment>, e: real -> real)
    ensures SegmentSum(segments, 0.0, e) == Passing(segments, Elapsed)
  {
    hide Times;
    if segments != [] { UndiscountedRates(segments[1..], e); }
  }

  /** Splitting a segment at any inner instant leaves the return unchanged. */
  lemma SplitSegment(s: RateSegment, middle: real, rest: seq<RateSegment>, beta: real, e: real -> real)
    requires IsDiscount(e) && beta >= 0.0
    ensures SegmentSum([s.(end := middle), s.(start := middle)] + rest, beta, e) == SegmentSum([s] + rest, beta, e)
  {
    var a, b := s.(end := middle), s.(start := middle);
    assert ([a, b] + rest)[1..] == [b] + rest && ([b] + rest)[1..] == rest && ([s] + rest)[1..] == rest;
    SplitFactor(s, middle, beta, e);
    hide Factor, Times, IsDiscount;
    assert Factor(a, beta, e) + Factor(b, beta, e) == Factor(s, beta, e);
    TimesAdd(s.rate, Factor(a, beta, e), Factor(b, beta, e));
  }

  lemma QuotientSum(x: real, y: real, d: real)
    requires d != 0.0
    ensures x / d + y / d == (x + y) / d
  {
  }

  /** beta times the discounted rate integral stays within rho * (E(from) - E(to)). */
  lemma {:induction false} SegmentsBounded(
    segments: seq<RateSegment>, from: real, to: real, rho: real, beta: real, e: real -> real)
    requires IsDiscount(e) && beta > 0.0 && 0.0 <= from <= to && rho >= 0.0
    requires Disjoint(segments, from, to)
    requires forall i :: 0 <= i < |segments| ==> Abs(segments[i].rate) <= rho
    ensures Within(Times(beta, SegmentSum(segments, beta, e)), Times(rho, e(from) - e(to)))
  {
    DiscountDecreases(e, from, to);
    if segments == [] {
      TimesSign(rho, e(from) - e(to));
    } else {
      var s, rest := segments[0], segments[1..];
      assert Disjoint(rest, s.end, to);
      SegmentsBounded(rest, s.end, to, rho, beta, e);
      FactorIsDrop(s, beta, e);
      DiscountDecreases(e, from, s.start);
      DiscountDecreases(e, s.start, s.end);
      hide IsDiscount, Disjoint, Factor, Times, Within;
      assert Within(s.rate, rho);
      BoundStep(s.rate, Factor(s, beta, e), SegmentSum(rest, beta, e), rho, beta, e(from), e(s.start), e(s.end), e(to));
    }
  }

  lemma BoundStep(rate: real, factor: real, rest: real, rho: real, beta: real, e0: real, e1: real, e2: real, e3: real)
    requires beta > 0.0 && rho >= 0.0 && Within(rate, rho) && factor == (e1 - e2) / beta
    requires e0 >= e1 >= e2 && Within(Times(beta, rest), Times(rho, e2 - e3))
    ensures Within(Times(beta, Times(rate, factor) + rest), Times(rho, e0 - e3))
  {
    var drop := e1 - e2;
    BackToDrop(rate, factor, beta, drop);
    TimesBound(rate, drop, rho);
    TimesSign(rho, e0 - e1);
    TimesAdd(rho, drop, e2 - e3);
    TimesAdd(rho, e0 - e1, e1 - e3);
    TimesAdd(beta, Times(rate, factor), rest);
    AddWithin(Times(rate, drop), Times(beta, rest), Times(rho, drop), Times(rho, e2 - e3));
    assert drop + (e2 - e3) == e1 - e3 && (e0 - e1) + (e1 - e3) == e0 - e3;
    hide Times;
  }

  lemma BackToDrop(rate: real, factor: real, beta: real, drop: real)
    requires beta > 0.0 && factor == drop / beta
    ensures Times(beta, Times(rate, factor)) == Times(rate, drop)
  {
    assert beta * factor == drop;
  }

  /** Sum of the components' rate bounds. */
  function TotalRate(rates: seq<real>): real { if rates == [] then 0.0 else rates[0] + TotalRate(rates[1..]) }

  ghost predicate RatesBounded(components: seq<Component>, rates: seq<real>, duration: real) {
    && |components| == |rates|
    && forall c :: 0 <= c < |components| ==> ComponentBounded(components[c], rates[c], duration)
  }

  ghost predicate ComponentBounded(c: Component, rho: real, duration: real) {
    && rho >= 0.0 && c.impulse == 0.0 && Disjoint(c.segments, 0.0, duration)
    && forall i :: 0 <= i < |c.segments| ==> Abs(c.segments[i].rate) <= rho
  }

  lemma {:induction false} RewardBounded(
    components: seq<Component>, rates: seq<real>, duration: real, beta: real, e: real -> real)
    requires IsDiscount(e) && beta > 0.0 && duration >= 0.0 && RatesBounded(components, rates, duration)
    ensures Within(Times(beta, RewardSum(components, beta, duration, e)), Times(TotalRate(rates), 1.0 - e(duration)))
  {
    if components != [] {
      var c, rest := components[0], components[1..];
      assert ComponentBounded(c, rates[0], duration);
      assert RatesBounded(rest, rates[1..], duration);
      RewardBounded(rest, rates[1..], duration, beta, e);
      SegmentsBounded(c.segments, 0.0, duration, rates[0], beta, e);
      assert ComponentReturn(c, beta, duration, e) == SegmentSum(c.segments, beta, e);
      assert e(0.0) == 1.0;
      hide IsDiscount, SegmentSum, ComponentReturn, RatesBounded, ComponentBounded, Times, Within;
      AddBounded(ComponentReturn(c, beta, duration, e), RewardSum(rest, beta, duration, e), beta,
                 rates[0], TotalRate(rates[1..]), 1.0 - e(duration));
    }
  }

  lemma AddBounded(x: real, y: real, beta: real, p: real, q: real, drop: real)
    requires Within(Times(beta, x), Times(p, drop)) && Within(Times(beta, y), Times(q, drop))
    ensures Within(Times(beta, x + y), Times(p + q, drop))
  {
    TimesAdd(beta, x, y);
    TimesAdd(drop, p, q);
    AddWithin(Times(beta, x), Times(beta, y), Times(p, drop), Times(q, drop));
    hide Times;
  }

  /** A return from bounded rates without impulses is bounded by (1 - discount)
      times total rate over beta: the condition that keeps values bounded. */
  lemma ReturnMeetsBound(components: seq<Component>, rates: seq<real>, duration: real, beta: real, e: real -> real)
    requires IsDiscount(e) && beta > 0.0 && duration >= 0.0 && RatesBounded(components, rates, duration)
    ensures var d := DiscountedReturn(components, beta, duration, e);
            && 0.0 < d.discount <= 1.0
            && Within(d.reward, Times(1.0 - d.discount, TotalRate(rates) / beta))
  {
    RewardBounded(components, rates, duration, beta, e);
    hide RewardSum, TotalRate;
    CancelBeta(RewardSum(components, beta, duration, e), TotalRate(rates), 1.0 - e(duration), beta);
  }

  lemma CancelBeta(r: real, total: real, drop: real, beta: real)
    requires beta > 0.0 && Within(Times(beta, r), Times(total, drop))
    ensures Within(r, Times(drop, total / beta))
  {
    var b := total / beta;
    assert beta * b == total;
    assert beta * (drop * b) == total * drop;
    assert Abs(beta * r) == beta * Abs(r) by { ScaleAbs(beta, r); }
    ScaleOrder(Abs(r), drop * b, beta);
  }

  lemma ScaleAbs(k: real, x: real)
    requires k > 0.0
    ensures Abs(k * x) == k * Abs(x)
  {
  }

  // ------------------------------------------------------------ value table

  type Key = (nat, nat)  // state and option

  datatype Transition = Transition(
    state: nat, option: nat, components: seq<Component>, duration: real, terminal: bool,
    nextState: nat, nextOptions: seq<nat>, complete: bool)

  datatype Failure = Censored | BadParameters | UnregisteredOption | NoNextOptions

  datatype ValueUpdate = Applied(oldValue: real, target: real, newValue: real) | Raised(failure: Failure)

  function ValueOf(values: map<Key, real>, key: Key): real { if key in values then values[key] else 0.0 }

  function BestValue(values: map<Key, real>, state: nat, options: seq<nat>): real
    requires options != []
  {
    var first := ValueOf(values, (state, options[0]));
    if |options| == 1 then first else Max(first, BestValue(values, state, options[1..]))
  }

  function Refusal(options: set<nat>, t: Transition, beta: real, eta: real): (f: seq<Failure>)
    ensures |f| <= 1
  {
    if beta < 0.0 || !(0.0 < eta <= 1.0) then [BadParameters]
    else if !t.complete then [Censored]
    else if t.option !in options then [UnregisteredOption]
    else if !t.terminal && (t.nextOptions == [] || exists o :: o in t.nextOptions && o !in options) then
      [if t.nextOptions == [] then NoNextOptions else UnregisteredOption]
    else []
  }

  function Target(values: map<Key, real>, t: Transition, d: Discounted): real
    requires t.terminal || t.nextOptions != []
  {
    d.reward + (if t.terminal then 0.0 else Times(d.discount, BestValue(values, t.nextState, t.nextOptions)))
  }

  /** One Q-learning backup of the table. */
  function Backup(values: map<Key, real>, t: Transition, d: Discounted, eta: real): map<Key, real>
    requires t.terminal || t.nextOptions != []
  {
    var key := (t.state, t.option);
    var old_ := ValueOf(values, key);
    values[key := old_ + Times(eta, Target(values, t, d) - old_)]
  }

  // ---------------------------------------------- what one update amounts to

  /** No more than m, a missing entry counting as zero. */
  predicate AtMost(values: map<Key, real>, key: Key, m: real) { if key in values then values[key] <= m else 0.0 <= m }

  predicate Equals(values: map<Key, real>, key: Key, m: real) { if key in values then values[key] == m else 0.0 == m }

  /** The greatest value of the options in a state, that of one of them. */
  ghost predicate GreatestOf(values: map<Key, real>, state: nat, options: seq<nat>, m: real) {
    && (exists o :: o in options && Equals(values, (state, o), m))
    && forall o :: o in options ==> AtMost(values, (state, o), m)
  }

  lemma {:induction false} BestIsGreatest(values: map<Key, real>, state: nat, options: seq<nat>)
    requires options != []
    ensures GreatestOf(values, state, options, BestValue(values, state, options))
  {
    assert options[0] in options;
    if |options| > 1 {
      BestIsGreatest(values, state, options[1..]);
      assert forall o :: o in options <==> o == options[0] || o in options[1..];
      var o :| o in options[1..] && Equals(values, (state, o), BestValue(values, state, options[1..]));
    }
  }

  /** An update that aims at the reward plus the discounted greatest next value, moves the
      one entry by eta towards it and leaves all others. */
  ghost predicate BackedUp(before: map<Key, real>, after: map<Key, real>, t: Transition, d: Discounted, eta: real,
                           oldValue: real, target: real) {
    var key := (t.state, t.option);
    && Equals(before, key, oldValue)
    && (if t.terminal then target == d.reward
        else exists m :: GreatestOf(before, t.nextState, t.nextOptions, m) && target == d.reward + Times(d.discount, m))
    && key in after && after[key] == Times(1.0 - eta, oldValue) + Times(eta, target)
    && forall k :: k != key ==> (k in after <==> k in before) && (k in before ==> after[k] == before[k])
  }

  lemma BackupBacksUp(values: map<Key, real>, t: Transition, d: Discounted, eta: real)
    requires t.terminal || t.nextOptions != []
    ensures BackedUp(values, Backup(values, t, d, eta), t, d, eta,
                     ValueOf(values, (t.state, t.option)), Target(values, t, d))
  {
    if !t.terminal { BestIsGreatest(values, t.nextState, t.nextOptions); }
    var before := ValueOf(values, (t.state, t.option));
    Mixture(before, Target(values, t, d), eta);
    TimesAdd(before, 1.0 - eta, 0.0);
    TimesAdd(Target(values, t, d), eta, 0.0);
    hide Times, BestValue, GreatestOf;
  }

  /** Exactly which transitions are refused, and for which reason first. */
  lemma RefusedExactly(options: set<nat>, t: Transition, beta: real, eta: real)
    ensures var f := Refusal(options, t, beta, eta);
            && (f == [] <==>
                 && beta >= 0.0 && 0.0 < eta <= 1.0 && t.complete && t.option in options
                 && (t.terminal || (t.nextOptions != [] && forall o :: o in t.nextOptions ==> o in options)))
            && (f == [BadParameters] <==> beta < 0.0 || eta <= 0.0 || eta > 1.0)
            && (f == [Censored] ==> !t.complete) && (f == [NoNextOptions] ==> !t.terminal && t.nextOptions == [])
            && (f == [UnregisteredOption] ==>
                 t.option !in options || (!t.terminal && exists o :: o in t.nextOptions && o !in options))
  {
  }

  class OptionValueTable {
    const options: set<nat>
    var values: map<Key, real>
    var visits: map<Key, nat>

    ghost predicate Valid()
      reads this
    {
      values.Keys == visits.Keys && forall k :: k in visits ==> visits[k] > 0
    }

    constructor (registered: set<nat>)
      ensures Valid() && options == registered && values == map[] && visits == map[]
    {
      options := registered;
      values, visits := map[], map[];
    }

    /** Applies one backup and counts the visit, or changes nothing. */
    method Update(t: Transition, beta: real, eta: real, e: real -> real) returns (u: ValueUpdate)
      requires Valid()
      modifies this
      ensures Valid()
      ensures Refusal(options, t, beta, eta) == if u.Raised? then [u.failure] else []
      ensures u.Raised? ==> values == old(values) && visits == old(visits)
      ensures u.Applied? ==>
                var d := DiscountedReturn(t.components, beta, t.duration, e);
                var key := (t.state, t.option);
                && values == Backup(old(values), t, d, eta)
                && visits == old(visits)[key := (if key in old(visits) then old(visits)[key] else 0) + 1]
                && u.oldValue == ValueOf(old(values), key) && u.target == Target(old(values), t, d)
                && u.newValue == values[key]
                && BackedUp(old(values), values, t, d, eta, u.oldValue, u.target)
    {
      var refusal := Refusal(options, t, beta, eta);
      if refusal != [] {
        return Raised(refusal[0]);
      }
      hide Times, DiscountedReturn, BackedUp, Refusal;
      ghost var was := values;
      var discounted := DiscountedReturn(t.components, beta, t.duration, e);
      var bootstrap := 0.0;
      if !t.terminal {
        var best := ValueOf(values, (t.nextState, t.nextOptions[0]));
        for i := 1 to |t.nextOptions|
          invariant BestValue(values, t.nextState, t.nextOptions) ==
                    if i == |t.nextOptions| then best
                    else Max(best, BestValue(values, t.nextState, t.nextOptions[i..]))
        {
          assert t.nextOptions[i..][1..] == t.nextOptions[i + 1..];
          best := Max(best, ValueOf(values, (t.nextState, t.nextOptions[i])));
        }
        bootstrap := Times(discounted.discount, best);
      }
      var target := discounted.reward + bootstrap;
      var key := (t.state, t.option);
      var oldValue := if key in values then values[key] else 0.0;
      var newValue := oldValue + Times(eta, target - oldValue);
      values := values[key := newValue];
      visits := visits[key := (if key in visits then visits[key] else 0) + 1];
      u := Applied(oldValue, target, newValue);
      BackupBacksUp(was, t, discounted, eta);
    }
  }

  // ------------------------------------------------------- bounded over runs

  ghost predicate Bounded(values: map<Key, real>, bound: real) {
    forall k :: k in values ==> Abs(values[k]) <= bound
  }

  lemma {:induction false} BestBounded(values: map<Key, real>, state: nat, options: seq<nat>, bound: real)
    requires options != [] && bound >= 0.0 && Bounded(values, bound)
    ensures Abs(BestValue(values, state, options)) <= bound
  {
    if |options| > 1 { BestBounded(values, state, options[1..], bound); }
  }

  /** Reward within (1 - discount) * bound and discount in (0, 1]. */
  predicate Contracting(d: Discounted, bound: real) {
    0.0 < d.discount <= 1.0 && Within(d.reward, Times(1.0 - d.discount, bound))
  }

  /** One backup keeps every entry in [-bound, bound]. */
  lemma BackupBounded(values: map<Key, real>, t: Transition, d: Discounted, eta: real, bound: real)
    requires bound >= 0.0 && Bounded(values, bound) && Contracting(d, bound) && 0.0 < eta <= 1.0
    requires t.terminal || t.nextOptions != []
    ensures Bounded(Backup(values, t, d, eta), bound)
  {
    if !t.terminal { BestBounded(values, t.nextState, t.nextOptions, bound); }
    var best := if t.terminal then 0.0 else BestValue(values, t.nextState, t.nextOptions);
    assert Within(best, bound);
    var before := ValueOf(values, (t.state, t.option));
    assert Within(before, bound);
    hide Times, BestValue;
    TargetBounded(d.reward, d.discount, best, bound);
    Convex(before, Target(values, t, d), eta, bound);
  }

  lemma TargetBounded(reward: real, discount: real, best: real, bound: real)
    requires 0.0 < discount <= 1.0 && Within(reward, Times(1.0 - discount, bound)) && Within(best, bound)
    ensures Within(reward + Times(discount, best), bound) && Within(reward, bound)
  {
    TimesBound(best, discount, bound);
    TimesAdd(discount, best, bound);
    TimesAdd(bound, 1.0 - discount, discount);
    TimesAdd(discount, bound, 0.0);
    AddWithin(reward, Times(discount, best), Times(1.0 - discount, bound), Times(discount, bound));
    TimesSign(discount, bound);
  }

  lemma Convex(x: real, y: real, eta: real, bound: real)
    requires Within(x, bound) && Within(y, bound) && 0.0 < eta <= 1.0
    ensures Within(x + Times(eta, y - x), bound)
  {
    var rest := 1.0 - eta;
    TimesBound(x, rest, bound);
    TimesBound(y, eta, bound);
    Mixture(x, y, eta);
    TimesAdd(bound, rest, eta);
    AddWithin(Times(x, rest), Times(y, eta), Times(bound, rest), Times(bound, eta));
    hide Times;
  }

  lemma Mixture(x: real, y: real, eta: real)
    ensures x + Times(eta, y - x) == Times(x, 1.0 - eta) + Times(y, eta)
  {
  }

  datatype Sample = Sample(transition: Transition, eta: real)

  /** The table after a whole sequence of accepted updates. */
  function Learn(values: map<Key, real>, samples: seq<Sample>, options: set<nat>, beta: real, e: real -> real)
    : map<Key, real>
  {
    if samples == [] then values
    else
      var s := samples[|samples| - 1];
      var before := Learn(values, samples[..|samples| - 1], options, beta, e);
      if Refusal(options, s.transition, beta, s.eta) != [] then before
      else Backup(before, s.transition, DiscountedReturn(s.transition.components, beta, s.transition.duration, e),
                  s.eta)
  }

  /** Values stay bounded over every update sequence: with rates bounded in each
      transition by a total of rho, no impulses and beta > 0, every entry ever
      stored lies in [-rho/beta, rho/beta]. */
  lemma {:induction false} ValuesStayBounded(
    samples: seq<Sample>, options: set<nat>, beta: real, e: real -> real, rho: real, rates: seq<seq<real>>)
    requires IsDiscount(e) && beta > 0.0 && rho >= 0.0 && |rates| == |samples|
    requires forall i :: 0 <= i < |samples| ==> SampleBounded(samples[i], rates[i], rho)
    ensures Bounded(Learn(map[], samples, options, beta, e), rho / beta)
  {
    QuotientNonnegative(rho, beta);
    if samples != [] {
      var n := |samples| - 1;
      assert forall i :: 0 <= i < n ==> samples[..n][i] == samples[i] && rates[..n][i] == rates[i];
      ValuesStayBounded(samples[..n], options, beta, e, rho, rates[..n]);
      var s := samples[n];
      if Refusal(options, s.transition, beta, s.eta) == [] {
        var t := s.transition;
        assert SampleBounded(samples[n], rates[n], rho);
        ReturnMeetsBound(t.components, rates[n], t.duration, beta, e);
        var d := DiscountedReturn(t.components, beta, t.duration, e);
        LargerBound(d, TotalRate(rates[n]), rho, beta);
        BackupBounded(Learn(map[], samples[..n], options, beta, e), t, d, s.eta, rho / beta);
      }
    }
  }

  ghost predicate SampleBounded(s: Sample, rates: seq<real>, rho: real) {
    s.transition.duration >= 0.0 && RatesBounded(s.transition.components, rates, s.transition.duration)
    && TotalRate(rates) <= rho
  }

  lemma QuotientNonnegative(x: real, d: real)
    requires x >= 0.0 && d > 0.0
    ensures x / d >= 0.0
  {
    DivisionOrder(-x, 0.0, d);
    assert (-x) / d == -(x / d);
  }

  lemma LargerBound(d: Discounted, total: real, rho: real, beta: real)
    requires beta > 0.0 && total <= rho && 0.0 < d.discount <= 1.0
    requires Within(d.reward, Times(1.0 - d.discount, total / beta))
    ensures Contracting(d, rho / beta)
  {
    QuotientNonnegative(rho - total, beta);
    var gap := rho / beta - total / beta;
    assert gap == (rho - total) / beta;
    TimesSign(1.0 - d.discount, gap);
    TimesAdd(1.0 - d.discount, total / beta, gap);
    hide Times;
  }
}
