/** Reachability in a finite directed relation, by explicit paths. */
module Reachability {

  type Relation = set<(nat, nat)>

  ghost predicate Symmetric(r: Relation) {
    forall a, b :: (a, b) in r ==> (b, a) in r
  }

  /** Consecutive members of p are related. */
  ghost predicate IsPath(r: Relation, p: seq<nat>) {
    p != [] && forall i :: 0 <= i < |p| - 1 ==> (p[i], p[i + 1]) in r
  }

  ghost predicate PathBetween(r: Relation, p: seq<nat>, a: nat, b: nat) {
    IsPath(r, p) && p[0] == a && p[|p| - 1] == b
  }

  ghost predicate Reach(r: Relation, a: nat, b: nat) {
    exists p :: PathBetween(r, p, a, b)
  }

  lemma ReachSelf(r: Relation, a: nat)
    ensures Reach(r, a, a)
  {
    assert PathBetween(r, [a], a, a);
  }

  lemma ReachStep(r: Relation, a: nat, b: nat, c: nat)
    requires Reach(r, a, b) && (b, c) in r
    ensures Reach(r, a, c)
  {
    var p :| PathBetween(r, p, a, b);
    assert PathBetween(r, p + [c], a, c);
  }

  lemma ReachTransitive(r: Relation, a: nat, b: nat, c: nat)
    requires Reach(r, a, b) && Reach(r, b, c)
    ensures Reach(r, a, c)
  {
    var p :| PathBetween(r, p, a, b);
    var q :| PathBetween(r, q, b, c);
    var pq := p + q[1..];
    forall i | 0 <= i < |pq| - 1 ensures (pq[i], pq[i + 1]) in r {
      if i >= |p| - 1 {
        assert pq[i] == q[i - (|p| - 1)] && pq[i + 1] == q[i + 1 - (|p| - 1)];
      }
    }
    assert PathBetween(r, pq, a, c);
  }

  lemma ReachSymmetric(r: Relation, a: nat, b: nat)
    requires Symmetric(r) && Reach(r, a, b)
    ensures Reach(r, b, a)
  {
    var p :| PathBetween(r, p, a, b);
    var q := seq(|p|, i requires 0 <= i < |p| => p[|p| - 1 - i]);
    forall i | 0 <= i < |q| - 1 ensures (q[i], q[i + 1]) in r {
      assert q[i] == p[|p| - 2 - i + 1] && q[i + 1] == p[|p| - 2 - i];
    }
    assert PathBetween(r, q, b, a);
  }

  ghost predicate Closed(r: Relation, s: set<nat>) {
    forall a, b :: a in s && (a, b) in r ==> b in s
  }

  /** Nothing outside a closed set is reachable from inside it. */
  lemma {:induction false} ClosedContainsReach(r: Relation, s: set<nat>, p: seq<nat>, i: nat)
    requires Closed(r, s) && IsPath(r, p) && p[0] in s && i < |p|
    ensures p[i] in s
  {
    if i > 0 {
      ClosedContainsReach(r, s, p, i - 1);
      assert (p[i - 1], p[i - 1 + 1]) in r;
    }
  }

  lemma ReachStaysInside(r: Relation, s: set<nat>, a: nat, b: nat)
    requires Closed(r, s) && a in s && Reach(r, a, b)
    ensures b in s
  {
    var p :| PathBetween(r, p, a, b);
    ClosedContainsReach(r, s, p, |p| - 1);
  }
}
