/** Exact fusion of finite SMDP option models: equal discounted rewards and
    successor kernels preserve every one-step backup. */
module OptionFusion {
  import opened Arithmetic

  /** One outcome of an option: probability, duration, discounted reward, class. */
  datatype Atom = Atom(probability: real, duration: real, reward: real, next: nat)

  /** A model assigns a kernel to each of its options. */
  datatype Model = Model(kernels: map<nat, seq<Atom>>, exact: bool)

  /** Expected discounted reward of a kernel. */
  function RewardOf(atoms: seq<Atom>): real {
    if atoms == [] then 0.0 else atoms[0].probability * atoms[0].reward + RewardOf(atoms[1..])
  }

  /** Discounted probability of moving to class `target`. */
  function Mass(atoms: seq<Atom>, disc: real -> real, target: nat): real {
    if atoms == [] then 0.0
    else (if atoms[0].next == target then atoms[0].probability * disc(atoms[0].duration) else 0.0)
         + Mass(atoms[1..], disc, target)
  }

  /** One-step discounted backup of a kernel under a value function. */
  function Backup(atoms: seq<Atom>, disc: real -> real, value: nat -> real): real {
    if atoms == [] then 0.0
    else atoms[0].probability * (atoms[0].reward + disc(atoms[0].duration) * value(atoms[0].next))
         + Backup(atoms[1..], disc, value)
  }

  function Targets(atoms: seq<Atom>): set<nat> { set a | a in atoms :: a.next }

  // ------------------------------------------------------------- the check

  function RewardGap(l: seq<Atom>, r: seq<Atom>): real { Abs(RewardOf(l) - RewardOf(r)) }

  function MassGap(l: seq<Atom>, r: seq<Atom>, disc: real -> real, target: nat): real {
    Abs(Mass(l, disc, target) - Mass(r, disc, target))
  }

  /** Kernels agree within eps on reward and on every successor class. */
  ghost predicate KernelsAgree(l: seq<Atom>, r: seq<Atom>, disc: real -> real, eps: real) {
    && RewardGap(l, r) <= eps
    && forall t :: t in Targets(l) + Targets(r) ==> MassGap(l, r, disc, t) <= eps
  }

  datatype Assessment = EmpiricalEvidence | OptionSetsDiffer | Compared(equivalent: bool, rewardGap: real,
      kernelGap: real)

  /** Every option's kernels agree within eps. */
  ghost predicate ModelsAgree(left: Model, right: Model, disc: real -> real, eps: real)
    requires left.kernels.Keys == right.kernels.Keys
  {
    forall o :: o in left.kernels ==> KernelsAgree(left.kernels[o], right.kernels[o], disc, eps)
  }

  ghost predicate HasMassGap(l: seq<Atom>, r: seq<Atom>, disc: real -> real, gap: real) {
    exists t :: t in Targets(l) + Targets(r) && MassGap(l, r, disc, t) == gap
  }

  /** Over the given options, the largest reward gap and the largest mass gap,
      both at least zero. */
  ghost predicate LargestGaps(
    left: Model, right: Model, disc: real -> real, options: set<nat>, rewardGap: real, kernelGap: real)
    requires left.kernels.Keys == right.kernels.Keys && options <= left.kernels.Keys
  {
    && rewardGap >= 0.0 && kernelGap >= 0.0
    && (forall o :: o in options ==>
          RewardGap(left.kernels[o], right.kernels[o]) <= rewardGap
          && forall t :: t in Targets(left.kernels[o]) + Targets(right.kernels[o]) ==>
               MassGap(left.kernels[o], right.kernels[o], disc, t) <= kernelGap)
    && (rewardGap == 0.0 || exists o :: o in options && RewardGap(left.kernels[o], right.kernels[o]) == rewardGap)
    && (kernelGap == 0.0 || exists o :: o in options && HasMassGap(left.kernels[o], right.kernels[o], disc, kernelGap))
  }

  /** The largest gaps decide agreement within any tolerance. */
  lemma GapsDecide(left: Model, right: Model, disc: real -> real, rewardGap: real, kernelGap: real, eps: real)
    requires left.kernels.Keys == right.kernels.Keys && eps >= 0.0
    requires LargestGaps(left, right, disc, left.kernels.Keys, rewardGap, kernelGap)
    ensures ModelsAgree(left, right, disc, eps) <==> rewardGap <= eps && kernelGap <= eps
  {
    hide RewardGap, MassGap, Targets;
    if ModelsAgree(left, right, disc, eps) {
      if o :| o in left.kernels && RewardGap(left.kernels[o], right.kernels[o]) == rewardGap {
        assert KernelsAgree(left.kernels[o], right.kernels[o], disc, eps);
      }
      if o :| o in left.kernels && HasMassGap(left.kernels[o], right.kernels[o], disc, kernelGap) {
        assert KernelsAgree(left.kernels[o], right.kernels[o], disc, eps);
      }
    }
  }

  /** Comparison of two models: the reported gaps are the largest ones, and the
      models are equivalent exactly when every kernel agrees within the tolerance. */
  method Assess(left: Model, right: Model, disc: real -> real, tolerance: real) returns (a: Assessment)
    requires tolerance >= 0.0
    ensures a.EmpiricalEvidence? <==> !left.exact || !right.exact
    ensures a.OptionSetsDiffer? <==> left.exact && right.exact && left.kernels.Keys != right.kernels.Keys
    ensures a.Compared? ==>
              && left.kernels.Keys == right.kernels.Keys
              && LargestGaps(left, right, disc, left.kernels.Keys, a.rewardGap, a.kernelGap)
              && (a.equivalent <==> ModelsAgree(left, right, disc, tolerance))
  {
    if !left.exact || !right.exact {
      return EmpiricalEvidence;
    }
    if left.kernels.Keys != right.kernels.Keys {
      return OptionSetsDiffer;
    }
    hide RewardGap, MassGap, Targets, KernelsAgree;
    var rewardGap, kernelGap := 0.0, 0.0;
    var all := left.kernels.Keys;
    var options := all;
    while options != {}
      invariant options <= all
      invariant LargestGaps(left, right, disc, all - options, rewardGap, kernelGap)
      decreases options
    {
      var option :| option in options;
      var l, r := left.kernels[option], right.kernels[option];
      var reward := Max(rewardGap, RewardGap(l, r));
      var kernel := MaxMassGap(l, r, disc, kernelGap);
      OneMore(left, right, disc, all - options, rewardGap, kernelGap, option, reward, kernel);
      rewardGap, kernelGap := reward, kernel;
      assert all - (options - {option}) == (all - options) + {option};
      options := options - {option};
    }
    assert all - options == all;
    GapsDecide(left, right, disc, rewardGap, kernelGap, tolerance);
    a := Compared(Max(rewardGap, kernelGap) <= tolerance, rewardGap, kernelGap);
  }

  /** One more option raises the largest gaps to its own where they are larger. */
  lemma OneMore(left: Model, right: Model, disc: real -> real, done: set<nat>, rewardGap: real, kernelGap: real,
                option: nat, reward: real, kernel: real)
    requires left.kernels.Keys == right.kernels.Keys && done <= left.kernels.Keys && option in left.kernels
    requires LargestGaps(left, right, disc, done, rewardGap, kernelGap)
    requires reward == Max(rewardGap, RewardGap(left.kernels[option], right.kernels[option]))
    requires kernel >= kernelGap
    requires forall t :: t in Targets(left.kernels[option]) + Targets(right.kernels[option]) ==>
               MassGap(left.kernels[option], right.kernels[option], disc, t) <= kernel
    requires kernel == kernelGap || HasMassGap(left.kernels[option], right.kernels[option], disc, kernel)
    ensures LargestGaps(left, right, disc, done + {option}, reward, kernel)
  {
    hide RewardGap, MassGap, Targets, HasMassGap;
    var after := done + {option};
    if kernel == kernelGap && kernel != 0.0 {
      var o :| o in done && HasMassGap(left.kernels[o], right.kernels[o], disc, kernelGap);
      assert o in after;
    }
    if reward == rewardGap && reward != 0.0 {
      var o :| o in done && RewardGap(left.kernels[o], right.kernels[o]) == rewardGap;
      assert o in after;
    }
  }

  /** The running maximum of the mass gaps over the successor classes. */
  method MaxMassGap(l: seq<Atom>, r: seq<Atom>, disc: real -> real, from: real) returns (gap: real)
    ensures gap >= from
    ensures forall t :: t in Targets(l) + Targets(r) ==> MassGap(l, r, disc, t) <= gap
    ensures gap == from || HasMassGap(l, r, disc, gap)
  {
    gap := from;
    var targets := Targets(l) + Targets(r);
    while targets != {}
      invariant targets <= Targets(l) + Targets(r) && gap >= from
      invariant forall t :: t in Targets(l) + Targets(r) && t !in targets ==> MassGap(l, r, disc, t) <= gap
      invariant gap == from || exists t :: t in Targets(l) + Targets(r) && MassGap(l, r, disc, t) == gap
      decreases targets
    {
      var target :| target in targets;
      gap := Max(gap, MassGap(l, r, disc, target));
      targets := targets - {target};
    }
  }

  // --------------------------------------------------------- what it implies

  /** Sum over an enumeration of successor classes. */
  function WeightedMass(atoms: seq<Atom>, disc: real -> real, value: nat -> real, classes: seq<nat>): real {
    if classes == [] then 0.0
    else Times(Mass(atoms, disc, classes[0]), value(classes[0])) + WeightedMass(atoms, disc, value, classes[1..])
  }

  function TotalAbs(value: nat -> real, classes: seq<nat>): real {
    if classes == [] then 0.0 else Abs(value(classes[0])) + TotalAbs(value, classes[1..])
  }

  ghost predicate Distinct(s: seq<nat>) {
    forall i, j :: 0 <= i < j < |s| ==> s[i] != s[j]
  }

  lemma {:induction false} NoMass(disc: real -> real, value: nat -> real, classes: seq<nat>)
    ensures WeightedMass([], disc, value, classes) == 0.0
  {
    if classes != [] { NoMass(disc, value, classes[1..]); }
  }

  /** One more atom adds its discounted value, if its class is enumerated. */
  lemma {:induction false} AddAtom(atoms: seq<Atom>, disc: real -> real, value: nat -> real, classes: seq<nat>)
    requires atoms != [] && Distinct(classes)
    ensures WeightedMass(atoms, disc, value, classes) == WeightedMass(atoms[1..], disc, value, classes)
            + (if atoms[0].next in classes
               then atoms[0].probability * disc(atoms[0].duration) * value(atoms[0].next) else 0.0)
  {
    if classes != [] {
      var a, c, rest := atoms[0], classes[0], classes[1..];
      AddAtom(atoms, disc, value, rest);
      assert a.next in classes <==> a.next == c || a.next in rest;
      assert c !in rest;
      var p, m := a.probability * disc(a.duration), Mass(atoms[1..], disc, c);
      assert (p + m) * value(c) == p * value(c) + m * value(c);
    }
  }

  /** A backup is the reward plus the class masses weighted by their values. */
  lemma {:induction false} BackupByClass(atoms: seq<Atom>, disc: real -> real, value: nat -> real, classes: seq<nat>)
    requires Distinct(classes) && forall a :: a in atoms ==> a.next in classes
    ensures Backup(atoms, disc, value) == RewardOf(atoms) + WeightedMass(atoms, disc, value, classes)
  {
    if atoms == [] {
      NoMass(disc, value, classes);
    } else {
      BackupByClass(atoms[1..], disc, value, classes);
      AddAtom(atoms, disc, value, classes);
      var a := atoms[0];
      var d, v := disc(a.duration), value(a.next);
      assert a.probability * (a.reward + d * v) == a.probability * a.reward + a.probability * d * v;
    }
  }

  /** a and b differ by at most d. */
  predicate Near(a: real, b: real, d: real) { Within(a - b, d) }

  lemma CloseStep(ml: real, mr: real, v: real, eps: real, wl: real, wr: real, total: real)
    requires Near(ml, mr, eps) && Near(wl, wr, Times(eps, total))
    ensures Near(Times(ml, v) + wl, Times(mr, v) + wr, Times(eps, Abs(v) + total))
  {
    TimesBound(ml - mr, v, eps);
    AddWithin(Times(ml - mr, v), wl - wr, Times(eps, Abs(v)), Times(eps, total));
    TimesAdd(v, ml - mr, mr);
    TimesAdd(eps, Abs(v), total);
    hide Times, Abs;
  }

  lemma {:induction false} WeightedMassClose(
    l: seq<Atom>, r: seq<Atom>, disc: real -> real, value: nat -> real, classes: seq<nat>, eps: real)
    requires forall t :: t in classes ==> MassGap(l, r, disc, t) <= eps
    ensures Near(WeightedMass(l, disc, value, classes), WeightedMass(r, disc, value, classes),
                 Times(eps, TotalAbs(value, classes)))
  {
    if classes != [] {
      var c, rest := classes[0], classes[1..];
      WeightedMassClose(l, r, disc, value, rest, eps);
      assert c in classes && Near(Mass(l, disc, c), Mass(r, disc, c), eps);
      hide Near, Times, Abs, Mass;
      CloseStep(Mass(l, disc, c), Mass(r, disc, c), value(c), eps, WeightedMass(l, disc, value, rest),
                WeightedMass(r, disc, value, rest), TotalAbs(value, rest));
    }
  }

  /** Classes outside both kernels carry no mass. */
  lemma {:induction false} MassOutside(atoms: seq<Atom>, disc: real -> real, t: nat)
    requires t !in Targets(atoms)
    ensures Mass(atoms, disc, t) == 0.0
  {
    if atoms != [] {
      assert atoms[0].next in Targets(atoms);
      assert Targets(atoms[1..]) <= Targets(atoms);
      MassOutside(atoms[1..], disc, t);
    }
  }

  lemma SumClose(rl: real, rr: real, wl: real, wr: real, eps: real, total: real)
    requires Near(rl, rr, eps) && Near(wl, wr, Times(eps, total))
    ensures Near(rl + wl, rr + wr, Times(eps, 1.0 + total))
  {
    TimesAdd(eps, 1.0, total);
    AddWithin(rl - rr, wl - wr, eps, Times(eps, total));
  }

  /** Kernels that agree within eps have one-step backups within
      eps * (1 + sum of |V|) of each other, for every value function. */
  lemma BackupsClose(l: seq<Atom>, r: seq<Atom>, disc: real -> real, value: nat -> real, classes: seq<nat>, eps: real)
    requires eps >= 0.0 && KernelsAgree(l, r, disc, eps)
    requires Distinct(classes) && forall t :: t in Targets(l) + Targets(r) ==> t in classes
    ensures Near(Backup(l, disc, value), Backup(r, disc, value), Times(eps, 1.0 + TotalAbs(value, classes)))
  {
    hide KernelsAgree, MassGap, Backup, RewardOf, WeightedMass, TotalAbs, Mass, Near, Times, Distinct, Targets;
    AgreeOnClasses(l, r, disc, classes, eps);
    BackupByClass(l, disc, value, classes);
    BackupByClass(r, disc, value, classes);
    WeightedMassClose(l, r, disc, value, classes, eps);
    SumClose(RewardOf(l), RewardOf(r), WeightedMass(l, disc, value, classes), WeightedMass(r, disc, value, classes),
             eps, TotalAbs(value, classes));
  }

  /** Agreement extends to every enumerated class. */
  lemma AgreeOnClasses(l: seq<Atom>, r: seq<Atom>, disc: real -> real, classes: seq<nat>, eps: real)
    requires eps >= 0.0 && KernelsAgree(l, r, disc, eps)
    requires forall t :: t in Targets(l) + Targets(r) ==> t in classes
    ensures forall t :: t in classes ==> MassGap(l, r, disc, t) <= eps
    ensures Near(RewardOf(l), RewardOf(r), eps)
    ensures forall a :: a in l || a in r ==> a.next in classes
  {
    forall t | t in classes ensures MassGap(l, r, disc, t) <= eps {
      if t !in Targets(l) + Targets(r) {
        MassOutside(l, disc, t);
        MassOutside(r, disc, t);
      }
    }
    assert forall a :: a in l ==> a.next in Targets(l);
    assert forall a :: a in r ==> a.next in Targets(r);
  }

  /** Exact fusion preserves meaning: with tolerance 0 every backup of every
      option is equal, for every value function over the successor classes. */
  lemma ExactFusionPreservesBackups(left: Model, right: Model, disc: real -> real, value: nat -> real, option: nat)
    requires left.kernels.Keys == right.kernels.Keys && option in left.kernels
    requires KernelsAgree(left.kernels[option], right.kernels[option], disc, 0.0)
    ensures Backup(left.kernels[option], disc, value) == Backup(right.kernels[option], disc, value)
  {
    var l, r := left.kernels[option], right.kernels[option];
    var classes := Enumerate(Targets(l) + Targets(r));
    BackupsClose(l, r, disc, value, classes, 0.0);
  }

  ghost function Enumerate(s: set<nat>): (r: seq<nat>)
    ensures Distinct(r) && forall t :: t in r <==> t in s
  {
    if s == {} then []
    else
      var t :| t in s;
      var rest := Enumerate(s - {t});
      assert t !in rest;
      [t] + rest
  }

  // -------------------------------------------------------------- best option

  /** The best backup over a list of options. */
  function Best(m: Model, options: seq<nat>, disc: real -> real, value: nat -> real): real
    requires options != [] && forall o :: o in options ==> o in m.kernels
  {
    var first := Backup(m.kernels[options[0]], disc, value);
    if |options| == 1 then first else Max(first, Best(m, options[1..], disc, value))
  }

  /** The best achievable backup of fused models is equal. */
  lemma {:induction false} ExactFusionPreservesBest(
    left: Model, right: Model, options: seq<nat>, disc: real -> real, value: nat -> real)
    requires left.kernels.Keys == right.kernels.Keys
    requires options != [] && forall o :: o in options ==> o in left.kernels
    requires forall o :: o in left.kernels ==> KernelsAgree(left.kernels[o], right.kernels[o], disc, 0.0)
    ensures Best(left, options, disc, value) == Best(right, options, disc, value)
  {
    ExactFusionPreservesBackups(left, right, disc, value, options[0]);
    if |options| > 1 {
      ExactFusionPreservesBest(left, right, options[1..], disc, value);
    }
  }

  /** The converse: kernels whose backups agree for every value function agree
      exactly, so the check refuses no pair that could be fused. */
  lemma EqualBackupsAgree(l: seq<Atom>, r: seq<Atom>, disc: real -> real)
    requires forall value: nat -> real :: Backup(l, disc, value) == Backup(r, disc, value)
    ensures KernelsAgree(l, r, disc, 0.0)
  {
    var zero: nat -> real := _ => 0.0;
    BackupAtZero(l, disc);
    BackupAtZero(r, disc);
    assert Backup(l, disc, zero) == Backup(r, disc, zero);
    forall t | t in Targets(l) + Targets(r) ensures MassGap(l, r, disc, t) <= 0.0 {
      var unit := Indicator(t);
      BackupAtIndicator(l, disc, t);
      BackupAtIndicator(r, disc, t);
      assert Backup(l, disc, unit) == Backup(r, disc, unit);
    }
  }

  function Indicator(t: nat): nat -> real { c => if c == t then 1.0 else 0.0 }

  lemma {:induction false} BackupAtZero(atoms: seq<Atom>, disc: real -> real)
    ensures forall zero: nat -> real :: (forall c :: zero(c) == 0.0) ==> Backup(atoms, disc, zero) == RewardOf(atoms)
  {
    if atoms != [] { BackupAtZero(atoms[1..], disc); }
  }

  lemma {:induction false} BackupAtIndicator(atoms: seq<Atom>, disc: real -> real, t: nat)
    ensures Backup(atoms, disc, Indicator(t)) == RewardOf(atoms) + Mass(atoms, disc, t)
  {
    if atoms != [] {
      BackupAtIndicator(atoms[1..], disc, t);
      var a := atoms[0];
      assert a.probability * (a.reward + disc(a.duration) * 1.0) == a.probability * a.reward
          + a.probability * disc(a.duration);
    }
  }
}
