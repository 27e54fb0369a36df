/** Connected components of a symmetric affinity matrix by depth-first search. */
module Components {
  import opened Reachability

  type Weights = seq<seq<real>>

  ghost predicate SymmetricMatrix(w: Weights) {
    && (forall i :: 0 <= i < |w| ==> |w[i]| == |w|)
    && forall i, j :: 0 <= i < |w| && 0 <= j < |w| ==> w[i][j] == w[j][i]
  }

  /** Nodes joined by a positive weight. */
  ghost function Joined(w: Weights): Relation
    requires SymmetricMatrix(w)
  {
    set i: nat, j: nat | i < |w| && j < |w| && w[i][j] > 0.0 :: (i, j)
  }

  function Range(n: nat): (r: set<nat>)
    ensures forall i: nat :: i in r <==> i < n
  {
    if n == 0 then {} else Range(n - 1) + {n - 1}
  }

  function Nodes(w: Weights): set<nat> { Range(|w|) }

  /** The equivalence class of node v under reachability. */
  ghost function ClassOf(w: Weights, v: nat): set<nat>
    requires SymmetricMatrix(w)
  {
    set u | u in Nodes(w) && Reach(Joined(w), v, u)
  }

  ghost function Classes(w: Weights): set<set<nat>>
    requires SymmetricMatrix(w)
  {
    set v | v in Nodes(w) :: ClassOf(w, v)
  }

  lemma JoinedSymmetric(w: Weights)
    requires SymmetricMatrix(w)
    ensures Symmetric(Joined(w))
  {
  }

  lemma SameClass(w: Weights, a: nat, b: nat)
    requires SymmetricMatrix(w) && Reach(Joined(w), a, b)
    ensures ClassOf(w, a) == ClassOf(w, b)
  {
    JoinedSymmetric(w);
    var r := Joined(w);
    ReachSymmetric(r, a, b);
    forall u ensures Reach(r, a, u) <==> Reach(r, b, u) {
      if Reach(r, a, u) { ReachTransitive(r, b, a, u); }
      if Reach(r, b, u) { ReachTransitive(r, a, b, u); }
    }
  }

  /** `done` is a union of whole classes, and `found` is the set of them. */
  ghost predicate Counted(w: Weights, done: set<nat>, found: set<set<nat>>)
    requires SymmetricMatrix(w)
  {
    && done <= Nodes(w) && Closed(Joined(w), done)
    && found == (set v | v in done :: ClassOf(w, v))
  }

  /** Finishing a component adds exactly one class. */
  lemma ComponentFinished(w: Weights, done: set<nat>, found: set<set<nat>>, root: nat)
    requires SymmetricMatrix(w) && Counted(w, done, found) && root in Nodes(w) && root !in done
    ensures Counted(w, done + ClassOf(w, root), found + {ClassOf(w, root)})
    ensures ClassOf(w, root) !in found
  {
    var cls := ClassOf(w, root);
    ClassClosed(w, root);
    forall v | v in cls ensures ClassOf(w, v) == cls { SameClass(w, root, v); }
    ClassFresh(w, done, root);
    forall v | v in done ensures ClassOf(w, v) != cls {
      ReachSelf(Joined(w), v);
      assert v in ClassOf(w, v);
    }
    hide ClassOf;
    assert root in cls;
    assert (set v | v in done + cls :: ClassOf(w, v)) == found + {cls};
  }

  /** Depth-first search inside the class `cls` of the root: `finished` nodes
      have all their neighbours in the component, the others are on the stack. */
  ghost predicate Searching(
    r: Relation, cls: set<nat>, component: set<nat>, finished: set<nat>, root: nat, stack: seq<nat>)
  {
    && root in component && component <= cls && finished <= component
    && (forall u :: u in stack ==> u in component)
    && (forall u :: u in component ==> u in finished || u in stack)
    && forall u, v :: u in finished && (u, v) in r ==> v in component
  }

  lemma ClassClosed(w: Weights, root: nat)
    requires SymmetricMatrix(w) && root in Nodes(w)
    ensures Closed(Joined(w), ClassOf(w, root)) && root in ClassOf(w, root)
    ensures forall u :: u in ClassOf(w, root) ==> Reach(Joined(w), root, u)
  {
    ReachSelf(Joined(w), root);
    forall a, b | a in ClassOf(w, root) && (a, b) in Joined(w) ensures b in ClassOf(w, root) {
      ReachStep(Joined(w), root, a, b);
    }
  }

  /** A class not yet counted is disjoint from the counted ones. */
  lemma ClassFresh(w: Weights, done: set<nat>, root: nat)
    requires SymmetricMatrix(w) && root in Nodes(w) && root !in done && Closed(Joined(w), done)
    ensures ClassOf(w, root) !! done && ClassOf(w, root) <= Nodes(w)
  {
    JoinedSymmetric(w);
    forall u | u in ClassOf(w, root) ensures u !in done {
      ReachSymmetric(Joined(w), root, u);
      if u in done { ReachStaysInside(Joined(w), done, u, root); }
    }
  }

  /** The count is the number of equivalence classes of reachability along
      positive weights. */
  method ComponentCount(w: Weights) returns (count: nat)
    requires SymmetricMatrix(w)
    ensures count == |Classes(w)|
  {
    hide Joined, SymmetricMatrix, ClassOf, Classes;
    count := 0;
    var unseen := Nodes(w);
    ghost var found: set<set<nat>> := {};
    while unseen != {}
      invariant unseen <= Nodes(w)
      invariant Counted(w, Nodes(w) - unseen, found)
      invariant count == |found|
      decreases |unseen|
    {
      count := count + 1;
      var root :| root in unseen;
      ghost var done := Nodes(w) - unseen;
      ClassClosed(w, root);
      ClassFresh(w, done, root);
      unseen := Flood(w, unseen, root);
      ComponentFinished(w, done, found, root);
      assert Nodes(w) - unseen == done + ClassOf(w, root);
      found := found + {ClassOf(w, root)};
    }
    assert Nodes(w) - unseen == Nodes(w);
    AllCounted(w, found);
  }

  lemma AllCounted(w: Weights, found: set<set<nat>>)
    requires SymmetricMatrix(w) && Counted(w, Nodes(w), found)
    ensures found == Classes(w)
  {
  }

  lemma JoinedIff(w: Weights, i: nat, j: nat)
    requires SymmetricMatrix(w) && i < |w| && j < |w|
    ensures (i, j) in Joined(w) <==> w[i][j] > 0.0
  {
  }

  lemma JoinedInside(w: Weights, i: nat, j: nat)
    requires SymmetricMatrix(w) && (i, j) in Joined(w)
    ensures i < |w| && j < |w|
  {
  }

  /** The inner search: from `root`, remove its whole class from `unseen`. */
  method Flood(w: Weights, unseen0: set<nat>, root: nat) returns (unseen: set<nat>)
    requires SymmetricMatrix(w) && root in unseen0 && unseen0 <= Nodes(w)
    requires ClassOf(w, root) <= unseen0 && Closed(Joined(w), ClassOf(w, root)) && root in ClassOf(w, root)
    ensures unseen == unseen0 - ClassOf(w, root)
  {
    ghost var cls := ClassOf(w, root);
    ghost var r := Joined(w);
    hide Joined, SymmetricMatrix, ClassOf;
    unseen := unseen0 - {root};
    var stack := [root];
    ghost var component, finished := {root}, {};
    while stack != []
      invariant unseen == unseen0 - component
      invariant Searching(r, cls, component, finished, root, stack)
      decreases |unseen| + |stack|
    {
      unseen, stack, component, finished := Expand(w, unseen0, unseen, stack, root, cls, component, finished);
    }
    ComponentIsClass(w, component, finished, root);
  }

  lemma ComponentIsClass(w: Weights, component: set<nat>, finished: set<nat>, root: nat)
    requires SymmetricMatrix(w) && Searching(Joined(w), ClassOf(w, root), component, finished, root, [])
    ensures component == ClassOf(w, root)
  {
    forall u | u in ClassOf(w, root) ensures u in component {
      ReachStaysInside(Joined(w), component, root, u);
    }
  }

  /** One pop: every unseen neighbour moves to the stack. */
  method Expand(w: Weights, ghost all: set<nat>, unseen0: set<nat>, stack0: seq<nat>, ghost root: nat,
                ghost cls: set<nat>, ghost component0: set<nat>, ghost finished0: set<nat>)
    returns (unseen: set<nat>, stack: seq<nat>, ghost component: set<nat>, ghost finished: set<nat>)
    requires SymmetricMatrix(w) && stack0 != [] && cls <= all <= Nodes(w) && Closed(Joined(w), cls)
    requires unseen0 == all - component0 && Searching(Joined(w), cls, component0, finished0, root, stack0)
    ensures unseen == all - component && Searching(Joined(w), cls, component, finished, root, stack)
    ensures |unseen| + |stack| == |unseen0| + |stack0| - 1
  {
    var current := stack0[|stack0| - 1];
    unseen, stack, component := unseen0, stack0[..|stack0| - 1], component0;
    finished := finished0 + {current};
    assert stack0 == stack + [current] && current in component0;
    assert |w[current]| == |w|;
    ghost var r := Joined(w);
    hide Joined, SymmetricMatrix;
    for neighbor := 0 to |w|
      invariant unseen == all - component
      invariant component0 <= component <= cls
      invariant forall u :: u in stack ==> u in component
      invariant forall u :: u in component ==> u in finished || u in stack
      invariant forall v :: 0 <= v < neighbor && (current, v) in r ==> v in component
      invariant |unseen| + |stack| == |unseen0| + |stack0| - 1
    {
      JoinedIff(w, current, neighbor);
      if w[current][neighbor] > 0.0 && neighbor in unseen {
        unseen := unseen - {neighbor};
        stack := stack + [neighbor];
        component := component + {neighbor};
      }
    }
    forall v | (current, v) in r ensures v in component {
      JoinedInside(w, current, v);
    }
  }

  /** Every node lies in exactly one of the counted classes. */
  lemma ClassesPartition(w: Weights, v: nat)
    requires SymmetricMatrix(w) && v in Nodes(w)
    ensures ClassOf(w, v) in Classes(w) && v in ClassOf(w, v)
    ensures forall c :: c in Classes(w) && v in c ==> c == ClassOf(w, v)
  {
    ReachSelf(Joined(w), v);
    forall c | c in Classes(w) && v in c ensures c == ClassOf(w, v) {
      var u :| u in Nodes(w) && c == ClassOf(w, u);
      SameClass(w, u, v);
    }
  }
}
