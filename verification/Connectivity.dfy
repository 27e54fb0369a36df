/** The traced graph joins exactly the node cells that the grid joins. */
module Connectivity {
  import opened Corridors
  import opened Extraction
  import opened Reachability

  /** Steps of the grid one after the other. */
  ghost predicate GridPath(g: Grid, s: seq<Cell>, a: Cell, b: Cell) {
    && s != [] && s[0] == a && s[|s| - 1] == b && a in g
    && forall i :: 0 <= i < |s| - 1 ==> LegalAt(g, s, i)
  }

  ghost predicate GridJoins(g: Grid, a: Cell, b: Cell) {
    exists s :: GridPath(g, s, a, b)
  }

  /** Node ids joined by an edge, in either direction. */
  ghost function Links(edges: seq<Edge>): Relation {
    (set e | e in edges :: (e.fromNode, e.toNode)) + (set e | e in edges :: (e.toNode, e.fromNode))
  }

  ghost predicate GraphJoins(order: seq<Cell>, edges: seq<Edge>, a: Cell, b: Cell) {
    Reach(Links(edges), NodeId(order, a), NodeId(order, b))
  }

  lemma NodeIdUnique(order: seq<Cell>, id: nat)
    requires RowSorted(order) && 1 <= id <= |order|
    ensures NodeId(order, order[id - 1]) == id
  {
    var k := NodeId(order, order[id - 1]);
    assert order[id - 1] in order;
    assert order[k - 1] == order[id - 1];
  }

  /** The ids of an edge are those of the ends of its path. */
  lemma EdgeEnds(g: Grid, order: seq<Cell>, edges: seq<Edge>, e: nat)
    requires Extracted(g, order) && CorridorGraph(g, order, edges) && e < |edges|
    ensures var q := edges[e].path;
            |q| >= 2 && NodeId(order, q[0]) == edges[e].fromNode && NodeId(order, q[|q| - 1]) == edges[e].toNode
            && q[0] in order && q[|q| - 1] in order
  {
    hide Scanned, MakeEdge, Arrivals, Traced, Leaving, RowSorted, NodeId;
    var walks :| IsTrace(g, order, walks) && MadeOf(order, edges, Arrivals(AsSet(order), walks));
    GraphIsTraced(g, order, edges, walks);
    hide IsTrace, MadeOf, SimpleSteps;
    TracedGraphIsValid(g, order, edges, Arrivals(AsSet(order), walks), e);
    NodeIdUnique(order, edges[e].fromNode);
    NodeIdUnique(order, edges[e].toNode);
  }

  lemma LinkJoins(order: seq<Cell>, edges: seq<Edge>, e: nat, a: Cell, b: Cell)
    requires e < |edges|
    requires || (edges[e].fromNode == NodeId(order, a) && edges[e].toNode == NodeId(order, b))
             || (edges[e].fromNode == NodeId(order, b) && edges[e].toNode == NodeId(order, a))
    ensures GraphJoins(order, edges, a, b)
  {
    hide NodeId;
    assert edges[e] in edges;
    assert (edges[e].fromNode, edges[e].toNode) in Links(edges) && (edges[e].toNode, edges[e].fromNode) in Links(edges);
    hide Links, Reach;
    ReachSelf(Links(edges), NodeId(order, a));
    ReachStep(Links(edges), NodeId(order, a), NodeId(order, a), NodeId(order, b));
  }

  /** An edge along p joins the nodes at the ends of p. */
  lemma {:induction false} EdgeJoinsEnds(g: Grid, order: seq<Cell>, edges: seq<Edge>, e: nat, p: seq<Cell>)
    requires Extracted(g, order) && CorridorGraph(g, order, edges) && e < |edges| && |p| >= 2
    requires edges[e].path == p || edges[e].path == Reversed(p)
    ensures GraphJoins(order, edges, p[0], p[|p| - 1])
  {
    hide Extracted, CorridorGraph, NodeId, GraphJoins;
    EdgeEnds(g, order, edges, e);
    LinkJoins(order, edges, e, p[0], p[|p| - 1]);
  }

  // ------------------------------------------------- the graph joins no less

  /** No cell twice. */
  ghost predicate Distinct(s: seq<Cell>) {
    forall i, j :: 0 <= i < j < |s| ==> s[i] != s[j]
  }

  lemma DistinctStepsDiffer(s: seq<Cell>)
    requires Distinct(s)
    ensures SimpleSteps(s)
  {
    forall i, j | 0 <= i < j < |s| - 1 ensures StepAt(s, i) != StepAt(s, j) {
      StepEnds(s[i], s[i + 1], s[j], s[j + 1]);
      hide Step;
    }
  }

  /** A path that passes only cells without a third neighbour is a corridor. */
  lemma {:induction false} UnbranchedPathIsCorridor(g: Grid, order: seq<Cell>, s: seq<Cell>)
    requires Extracted(g, order) && Passing(g, order, s) && Distinct(s) && Unbranched(g, s)
    requires s[0] in order && s[|s| - 1] in order
    ensures Corridor(g, AsSet(order), s)
  {
    DistinctStepsDiffer(s);
    hide Legal, Onward, Extracted, SimpleSteps;
    forall i | 0 < i < |s| - 1 ensures PassesAt(g, AsSet(order), s, i) {
      PassingSteps(g, order, s, i);
      OnwardIsFirst(g, s[i - 1], s[i]);
    }
  }

  lemma SquareIsJoined(g: Grid, t: Cell, a: Cell, b: Cell)
    requires FreeSquare(g, t) && InSquare(t, a) && InSquare(t, b) && a != b
    ensures Legal(g, a, b)
  {
  }

  lemma AdjacentAreJoined(g: Grid, order: seq<Cell>, edges: seq<Edge>, a: Cell, b: Cell)
    requires Extracted(g, order) && CorridorGraph(g, order, edges) && a in order && b in order && Legal(g, a, b)
    ensures GraphJoins(order, edges, a, b)
  {
    hide Extracted, CorridorGraph, Legal, GraphJoins;
    var e := AdjacentNodesGetOneEdge(g, order, edges, a, b);
    assert Reversed([a, b]) == [b, a];
    EdgeJoinsEnds(g, order, edges, e, [a, b]);
  }

  /** Nodes at the ends of a path with no node and no cell twice inside are joined. */
  lemma {:induction false} PassageIsKept(g: Grid, order: seq<Cell>, edges: seq<Edge>, s: seq<Cell>)
    requires Extracted(g, order) && CorridorGraph(g, order, edges)
    requires Passing(g, order, s) && Distinct(s) && s[0] in order && s[|s| - 1] in order
    ensures GraphJoins(order, edges, s[0], s[|s| - 1])
  {
    hide CorridorGraph, GraphJoins, Reversed, Steps;
    if Unbranched(g, s) {
      UnbranchedPathIsCorridor(g, order, s);
      hide *;
      var e := CorridorIsOneEdge(g, order, edges, s);
      PassingLength(g, order, s);
      EdgeJoinsEnds(g, order, edges, e, s);
    } else {
      var i: int, x :| 0 < i < |s| - 1 && Legal(g, s[i], x) && x != s[i - 1] && x != s[i + 1];
      hide Extracted, Unbranched, Legal, Passing, FreeSquare, InSquare;
      PassingLength(g, order, s);
      var t := BranchConfines(g, order, s, i, x);
      SquareIsJoined(g, t, s[0], s[|s| - 1]);
      AdjacentAreJoined(g, order, edges, s[0], s[|s| - 1]);
    }
  }

  lemma PassingLength(g: Grid, order: seq<Cell>, s: seq<Cell>)
    requires Passing(g, order, s)
    ensures |s| >= 2
  {
  }

  lemma Sliced(g: Grid, s: seq<Cell>, a: Cell, b: Cell, i: nat, j: nat)
    requires GridPath(g, s, a, b) && i <= j < |s|
    ensures GridPath(g, s[i..j + 1], s[i], s[j])
  {
    hide Legal;
    var q := s[i..j + 1];
    forall k | 0 <= k < |q| - 1 ensures LegalAt(g, q, k) { assert LegalAt(g, s, i + k); }
    PathInGrid(g, s, a, b, i);
  }

  lemma PathInGrid(g: Grid, s: seq<Cell>, a: Cell, b: Cell, i: nat)
    requires GridPath(g, s, a, b) && i < |s|
    ensures s[i] in g
  {
    if i > 0 { assert LegalAt(g, s, i - 1); }
  }

  /** A path without what it does between two visits of the same cell. */
  lemma ShortCut(g: Grid, s: seq<Cell>, a: Cell, b: Cell, i: nat, j: nat)
    requires GridPath(g, s, a, b) && i < j < |s| && s[i] == s[j]
    ensures GridPath(g, s[..i] + s[j..], a, b)
  {
    hide Legal;
    var q := s[..i] + s[j..];
    forall k | 0 <= k < |q| - 1 ensures LegalAt(g, q, k) {
      if k < i { assert LegalAt(g, s, k); } else { assert LegalAt(g, s, k - i + j); }
    }
  }

  /** Node cells at the ends of a path of the grid are joined in the graph. */
  lemma {:induction false} PathIsKept(g: Grid, order: seq<Cell>, edges: seq<Edge>, s: seq<Cell>, a: Cell, b: Cell)
    requires Extracted(g, order) && CorridorGraph(g, order, edges)
    requires GridPath(g, s, a, b) && a in order && b in order
    ensures GraphJoins(order, edges, a, b)
    decreases |s|
  {
    hide Extracted, CorridorGraph, Legal, Reach, Links, NodeId;
    if k :| 0 < k < |s| - 1 && s[k] in order {
      Sliced(g, s, a, b, 0, k);
      Sliced(g, s, a, b, k, |s| - 1);
      hide GridPath, Legal;
      PathIsKept(g, order, edges, s[0..k + 1], a, s[k]);
      PathIsKept(g, order, edges, s[k..|s| - 1 + 1], s[k], b);
      ReachTransitive(Links(edges), NodeId(order, a), NodeId(order, s[k]), NodeId(order, b));
    } else if a == b {
      ReachSelf(Links(edges), NodeId(order, a));
    } else if i, j :| 0 <= i < j < |s| && s[i] == s[j] {
      ShortCut(g, s, a, b, i, j);
      hide GridPath;
      PathIsKept(g, order, edges, s[..i] + s[j..], a, b);
    } else {
      PassageIsKept(g, order, edges, s);
    }
  }

  // ------------------------------------------------- the graph joins no more

  lemma GridJoinsOn(g: Grid, a: Cell, b: Cell, c: Cell)
    requires GridJoins(g, a, b) && GridJoins(g, b, c)
    ensures GridJoins(g, a, c)
  {
    var p :| GridPath(g, p, a, b);
    var q :| GridPath(g, q, b, c);
    hide Legal;
    var pq, n := p + q[1..], |p| - 1;
    forall k | 0 <= k < |pq| - 1 ensures LegalAt(g, pq, k) {
      if k < n { assert LegalAt(g, p, k); } else { assert LegalAt(g, q, k - n); }
    }
    assert GridPath(g, pq, a, c);
  }

  /** The path of an edge is a path of the grid either way. */
  lemma {:induction false} CorridorIsGridPath(g: Grid, order: seq<Cell>, p: seq<Cell>)
    requires Corridor(g, AsSet(order), p)
    ensures |p| >= 2 && GridPath(g, p, p[0], p[|p| - 1]) && GridPath(g, Reversed(p), p[|p| - 1], p[0])
  {
    ReversedEnds(g, AsSet(order), p);
    WalkInGrid(g, AsSet(order), p, |p| - 1);
    hide Legal, Onward, SimpleSteps, PassesAt;
  }

  lemma {:induction false} EdgeIsGridPath(g: Grid, order: seq<Cell>, edges: seq<Edge>, e: nat)
    requires Extracted(g, order) && CorridorGraph(g, order, edges) && e < |edges|
    ensures 1 <= edges[e].fromNode <= |order| && 1 <= edges[e].toNode <= |order|
    ensures GridJoins(g, order[edges[e].fromNode - 1], order[edges[e].toNode - 1])
    ensures GridJoins(g, order[edges[e].toNode - 1], order[edges[e].fromNode - 1])
  {
    hide Scanned, Arrivals, Leaving, Corridor, GridPath, Steps;
    var walks :| IsTrace(g, order, walks) && MadeOf(order, edges, Arrivals(AsSet(order), walks));
    GraphIsTraced(g, order, edges, walks);
    var corridors := Arrivals(AsSet(order), walks);
    TracedGraphIsValid(g, order, edges, corridors, e);
    var p := corridors[e];
    CorridorIsGridPath(g, order, p);
    assert edges[e].path == p || edges[e].path == Reversed(p);
    assert GridJoins(g, p[0], p[|p| - 1]) && GridJoins(g, p[|p| - 1], p[0]);
    hide GridJoins, IsTrace, Traced, MadeOf, MakeEdge;
    assert Reversed(p)[0] == p[|p| - 1] && Reversed(p)[|p| - 1] == p[0];
  }

  lemma LinkOf(edges: seq<Edge>, u: nat, v: nat) returns (e: nat)
    requires (u, v) in Links(edges)
    ensures e < |edges|
    ensures (edges[e].fromNode == u && edges[e].toNode == v) || (edges[e].fromNode == v && edges[e].toNode == u)
  {
    var edge :| edge in edges && ((edge.fromNode, edge.toNode) == (u, v) || (edge.toNode, edge.fromNode) == (u, v));
    e :| 0 <= e < |edges| && edges[e] == edge;
  }

  /** Along linked ids the node cells are joined in the grid. */
  lemma {:induction false} ReachIsInGrid(g: Grid, order: seq<Cell>, edges: seq<Edge>, ids: seq<nat>, a: Cell)
    requires Extracted(g, order) && CorridorGraph(g, order, edges) && a in order
    requires IsPath(Links(edges), ids) && ids[0] == NodeId(order, a)
    ensures 1 <= ids[|ids| - 1] <= |order| && GridJoins(g, a, order[ids[|ids| - 1] - 1])
    decreases |ids|
  {
    hide CorridorGraph, GridJoins, RowSorted, Links;
    if |ids| == 1 {
      JoinsItself(g, a);
    } else {
      var n := |ids| - 2;
      var init := ids[..n + 1];
      forall k | 0 <= k < |init| - 1 ensures (init[k], init[k + 1]) in Links(edges) {
        assert (ids[k], ids[k + 1]) in Links(edges);
      }
      ReachIsInGrid(g, order, edges, init, a);
      assert (ids[n], ids[n + 1]) in Links(edges);
      var e := LinkOf(edges, ids[n], ids[n + 1]);
      EdgeIsGridPath(g, order, edges, e);
      GridJoinsOn(g, a, order[ids[n] - 1], order[ids[n + 1] - 1]);
    }
  }

  lemma JoinsItself(g: Grid, a: Cell)
    requires a in g
    ensures GridJoins(g, a, a)
  {
    assert GridPath(g, [a], a, a);
  }

  /** Extraction and tracing keep connectivity: two node cells are joined by edges of
      the graph exactly when legal steps through free cells join them in the grid. */
  lemma {:induction false} GraphKeepsConnectivity(g: Grid, order: seq<Cell>, edges: seq<Edge>, a: Cell, b: Cell)
    requires Extracted(g, order) && CorridorGraph(g, order, edges) && a in order && b in order
    ensures GraphJoins(order, edges, a, b) <==> GridJoins(g, a, b)
  {
    hide Extracted, CorridorGraph, Links, GridPath;
    if GridJoins(g, a, b) {
      var s :| GridPath(g, s, a, b);
      PathIsKept(g, order, edges, s, a, b);
    }
    if GraphJoins(order, edges, a, b) {
      var ids :| PathBetween(Links(edges), ids, NodeId(order, a), NodeId(order, b));
      ReachIsInGrid(g, order, edges, ids, a);
      hide GridJoins;
      assert order[NodeId(order, b) - 1] == b;
    }
  }
}
