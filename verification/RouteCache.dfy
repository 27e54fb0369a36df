/** The route-tree cache of the autonomous policy against planning without one.
    Shortest-path trees and the clipping of a path to the pose are functions of the
    world; graphs are immutable objects told apart by reference. */
module RouteCaches {
  import opened Arithmetic
  import opened Options

  datatype Node = Node(id: nat, x: real, y: real)

  datatype Edge = Edge(id: nat, fromNode: nat, toNode: nat, open: bool, clearance: real)

  datatype Graph = Graph(nodes: seq<Node>, edges: seq<Edge>)

  datatype Path = Path(edges: seq<nat>, cost: real)

  type Tree = map<nat, Path>

  /** A pose estimate: position, heading and position error bound. */
  datatype Pose = Pose(x: real, y: real, heading: real, bound: real)

  datatype World = World(
    graphs: nat -> Graph,
    tree: (Graph, nat) -> Tree,
    clip: (Path, Pose, real) -> Option<Path>)

  datatype Frame = Frame(stamp: int, pose: Option<Pose>, graph: nat)

  /** Later edges with the same id replace earlier ones. */
  function EdgeTable(edges: seq<Edge>): map<nat, Edge> {
    if edges == [] then map[]
    else EdgeTable(edges[..|edges| - 1])[edges[|edges| - 1].id := edges[|edges| - 1]]
  }

  /** The table holds exactly the ids of the edges, each with the last edge of that id. */
  lemma {:induction false} EdgeTableExactly(edges: seq<Edge>, id: nat)
    ensures id in EdgeTable(edges) <==> exists i :: 0 <= i < |edges| && edges[i].id == id
    ensures id in EdgeTable(edges) ==>
              exists i :: 0 <= i < |edges| && edges[i].id == id && EdgeTable(edges)[id] == edges[i]
                && forall j :: i < j < |edges| ==> edges[j].id != id
  {
    if edges != [] {
      var n := |edges| - 1;
      EdgeTableExactly(edges[..n], id);
      if edges[n].id != id {
        assert id in EdgeTable(edges) <==> id in EdgeTable(edges[..n]);
        if i :| 0 <= i < |edges| && edges[i].id == id { assert edges[..n][i] == edges[i]; }
        if id in EdgeTable(edges[..n]) {
          var i :| 0 <= i < n && edges[..n][i].id == id && EdgeTable(edges[..n])[id] == edges[..n][i]
            && forall j :: i < j < n ==> edges[..n][j].id != id;
          assert edges[i].id == id && EdgeTable(edges)[id] == edges[i];
          forall j | i < j < |edges| ensures edges[j].id != id { if j < n { assert edges[..n][j] == edges[j]; } }
        }
      }
    }
  }

  /** The edges lead from one node to the other. */
  predicate Leads(ids: seq<nat>, edges: map<nat, Edge>, a: nat, b: nat) {
    if ids == [] then a == b
    else
      && ids[0] in edges
      && var e := edges[ids[0]];
         || (e.fromNode == a && Leads(ids[1..], edges, e.toNode, b))
         || (e.toNode == a && Leads(ids[1..], edges, e.fromNode, b))
  }

  /** Every path of a tree leads along edges of its graph from the start to its node. */
  ghost predicate WellFormed(w: World) { forall g, start :: IsTree(w.tree(g, start), EdgeTable(g.edges), start) }

  ghost predicate IsTree(t: Tree, edges: map<nat, Edge>, start: nat) {
    forall n :: n in t ==> Leads(t[n].edges, edges, start, n)
  }

  ghost predicate TreeInGraph(t: Tree, edges: map<nat, Edge>) {
    forall n :: n in t ==> forall id :: id in t[n].edges ==> id in edges
  }

  lemma {:induction false} LeadsInGraph(ids: seq<nat>, edges: map<nat, Edge>, a: nat, b: nat)
    requires Leads(ids, edges, a, b)
    ensures forall id :: id in ids ==> id in edges
  {
    if ids != [] {
      var e := edges[ids[0]];
      var next := if e.fromNode == a && Leads(ids[1..], edges, e.toNode, b) then e.toNode else e.fromNode;
      LeadsInGraph(ids[1..], edges, next, b);
    }
  }

  lemma TreesInGraph(w: World, g: Graph, start: nat)
    requires WellFormed(w)
    ensures TreeInGraph(w.tree(g, start), EdgeTable(g.edges))
  {
    var t, edges := w.tree(g, start), EdgeTable(g.edges);
    assert IsTree(t, edges, start);
    hide Leads, WellFormed;
    forall n | n in t ensures forall id :: id in t[n].edges ==> id in edges {
      LeadsInGraph(t[n].edges, edges, start, n);
    }
  }

  // ------------------------------------------------------ nearest nodes first

  function Squared(n: Node, p: Pose): real { Times(n.x - p.x, n.x - p.x) + Times(n.y - p.y, n.y - p.y) }

  /** Nearer, or as near with the smaller id.  Squared distances compare like the
      distances themselves. */
  predicate NearLe(a: Node, b: Node, p: Pose) {
    Squared(a, p) < Squared(b, p) || (Squared(a, p) == Squared(b, p) && a.id <= b.id)
  }

  /** That is the order by distance and then id. */
  lemma NearIsByDistance(h: (real, real) -> real, a: Node, b: Node, p: Pose)
    requires IsHypot(h)
    ensures var da, db := h(a.x - p.x, a.y - p.y), h(b.x - p.x, b.y - p.y);
            NearLe(a, b, p) <==> da < db || (da == db && a.id <= b.id)
  {
    var da, db := h(a.x - p.x, a.y - p.y), h(b.x - p.x, b.y - p.y);
    assert da * da == Squared(a, p) && db * db == Squared(b, p) && da >= 0.0 && db >= 0.0;
    hide IsHypot, Squared;
    SquareReflects(da, db);
    SquareReflects(db, da);
  }

  function InsertNear(n: Node, s: seq<Node>, p: Pose): seq<Node> {
    if s == [] || NearLe(n, s[0], p) then [n] + s else [s[0]] + InsertNear(n, s[1..], p)
  }

  function SortNear(s: seq<Node>, p: Pose): seq<Node> {
    if s == [] then [] else InsertNear(s[0], SortNear(s[1..], p), p)
  }

  function Ids(s: seq<Node>): seq<nat> { if s == [] then [] else [s[0].id] + Ids(s[1..]) }

  /** The start nodes in the order in which they are tried. */
  function Nearest(g: Graph, p: Pose): seq<nat> { Ids(SortNear(g.nodes, p)) }

  ghost predicate SortedNear(s: seq<Node>, p: Pose) { forall i, j :: 0 <= i < j < |s| ==> NearLe(s[i], s[j], p) }

  /** Every node once, nearest first. */
  lemma {:induction false} SortNearSorts(s: seq<Node>, p: Pose)
    ensures SortedNear(SortNear(s, p), p) && multiset(SortNear(s, p)) == multiset(s)
  {
    hide NearLe;
    if s != [] {
      SortNearSorts(s[1..], p);
      InsertNearSorts(s[0], SortNear(s[1..], p), p);
      assert s == [s[0]] + s[1..];
    }
  }

  lemma {:induction false} InsertNearSorts(n: Node, s: seq<Node>, p: Pose)
    requires SortedNear(s, p)
    ensures SortedNear(InsertNear(n, s, p), p) && multiset(InsertNear(n, s, p)) == multiset(s) + multiset{n}
    ensures forall x :: x in InsertNear(n, s, p) <==> x == n || x in s
  {
    hide Squared;
    if s == [] {
      assert InsertNear(n, s, p) == [n];
    } else if NearLe(n, s[0], p) {
      forall j | 0 <= j < |s| ensures NearLe(n, s[j], p) { assert j > 0 ==> NearLe(s[0], s[j], p); }
    } else {
      var rest := s[1..];
      assert s == [s[0]] + rest;
      InsertNearSorts(n, rest, p);
      forall x | x in InsertNear(n, rest, p) ensures NearLe(s[0], x, p) {
        if x in rest { var j :| 0 <= j < |rest| && rest[j] == x; assert NearLe(s[0], s[j + 1], p); }
      }
    }
  }

  /** Only the position matters for the order. */
  lemma {:induction false} PositionDecides(s: seq<Node>, p: Pose, q: Pose)
    requires p.x == q.x && p.y == q.y
    ensures SortNear(s, p) == SortNear(s, q)
  {
    if s != [] {
      PositionDecides(s[1..], p, q);
      InsertPosition(s[0], SortNear(s[1..], p), p, q);
    }
  }

  lemma {:induction false} InsertPosition(n: Node, s: seq<Node>, p: Pose, q: Pose)
    requires p.x == q.x && p.y == q.y
    ensures InsertNear(n, s, p) == InsertNear(n, s, q)
  {
    if s != [] { InsertPosition(n, s[1..], p, q); }
  }

  function MinClearance(ids: seq<nat>, edges: map<nat, Edge>): real
    requires ids != [] && forall id :: id in ids ==> id in edges
  {
    var c := edges[ids[0]].clearance;
    if |ids| == 1 then c
    else var rest := MinClearance(ids[1..], edges); if c <= rest then c else rest
  }

  /** The route from one start, if its tree has an open, clippable path. */
  function RouteBy(t: Tree, edges: map<nat, Edge>, pose: Pose, node: nat, w: World): Option<Path>
    requires TreeInGraph(t, edges)
  {
    if node !in t || t[node].edges == [] then None
    else if exists i :: 0 <= i < |t[node].edges| && !edges[t[node].edges[i]].open then None
    else w.clip(t[node], pose, MinClearance(t[node].edges, edges))
  }

  lemma {:induction false} ClearanceIsLeast(ids: seq<nat>, edges: map<nat, Edge>)
    requires ids != [] && forall id :: id in ids ==> id in edges
    ensures exists id :: id in ids && edges[id].clearance == MinClearance(ids, edges)
    ensures forall id :: id in ids ==> MinClearance(ids, edges) <= edges[id].clearance
  {
    assert ids[0] in ids;
    if |ids| > 1 {
      ClearanceIsLeast(ids[1..], edges);
      assert forall id :: id in ids <==> id == ids[0] || id in ids[1..];
      var id :| id in ids[1..] && edges[id].clearance == MinClearance(ids[1..], edges);
    }
  }

  /** A start gives a route exactly when its tree reaches the node by at least one edge,
      all edges on the way are open and the path can be clipped to the pose with the
      least clearance on the way. */
  lemma RouteExactly(t: Tree, edges: map<nat, Edge>, pose: Pose, node: nat, w: World) returns (least: real)
    requires TreeInGraph(t, edges)
    ensures node in t && t[node].edges != [] ==>
              && (exists id :: id in t[node].edges && edges[id].clearance == least)
              && (forall id :: id in t[node].edges ==> least <= edges[id].clearance)
    ensures RouteBy(t, edges, pose, node, w) ==
              if node in t && t[node].edges != [] && forall id :: id in t[node].edges ==> edges[id].open
              then w.clip(t[node], pose, least) else None
  {
    least := 0.0;
    if node in t && t[node].edges != [] {
      ClearanceIsLeast(t[node].edges, edges);
      least := MinClearance(t[node].edges, edges);
    }
  }

  // -------------------------------------------------------- without a cache

  function RouteFrom(start: nat, g: Graph, pose: Pose, node: nat, w: World): Option<Path>
    requires TreeInGraph(w.tree(g, start), EdgeTable(g.edges))
  {
    RouteBy(w.tree(g, start), EdgeTable(g.edges), pose, node, w)
  }

  /** First start, nearest first, that gives a route. */
  function FirstRoute(starts: seq<nat>, g: Graph, pose: Pose, node: nat, w: World): Option<Path>
    requires WellFormed(w)
  {
    if starts == [] then None
    else
      TreesInGraph(w, g, starts[0]);
      var route := RouteBy(w.tree(g, starts[0]), EdgeTable(g.edges), pose, node, w);
      if route.Some? then route else FirstRoute(starts[1..], g, pose, node, w)
  }

  /** Of all starts, nearest first, the first one that gives a route decides. */
  lemma {:induction false} FirstRouteExactly(starts: seq<nat>, g: Graph, pose: Pose, node: nat, w: World)
    requires WellFormed(w) && forall s :: TreeInGraph(w.tree(g, s), EdgeTable(g.edges))
    ensures var route := FirstRoute(starts, g, pose, node, w);
            if forall i :: 0 <= i < |starts| ==> RouteFrom(starts[i], g, pose, node, w).None? then route == None
            else exists i :: 0 <= i < |starts| && route == RouteFrom(starts[i], g, pose, node, w) && route.Some?
                   && forall j :: 0 <= j < i ==> RouteFrom(starts[j], g, pose, node, w).None?
  {
    hide RouteBy, WellFormed, TreeInGraph;
    if starts != [] {
      FirstRouteExactly(starts[1..], g, pose, node, w);
      if RouteFrom(starts[0], g, pose, node, w).Some? {
        assert FirstRoute(starts, g, pose, node, w) == RouteFrom(starts[0], g, pose, node, w);
      } else if i :| 0 <= i < |starts| && RouteFrom(starts[i], g, pose, node, w).Some? {
        assert starts[1..][i - 1] == starts[i];
        var route := FirstRoute(starts[1..], g, pose, node, w);
        var k :| 0 <= k < |starts[1..]| && route == RouteFrom(starts[1..][k], g, pose, node, w)
          && forall j :: 0 <= j < k ==> RouteFrom(starts[1..][j], g, pose, node, w).None?;
        assert starts[k + 1] == starts[1..][k];
        forall j | 0 <= j < k + 1 ensures RouteFrom(starts[j], g, pose, node, w).None? {
          if j > 0 { assert starts[j] == starts[1..][j - 1]; }
        }
      }
    }
  }

  function Uncached(f: Frame, node: nat, w: World): Option<Path>
    requires WellFormed(w)
  {
    if f.pose.None? then None
    else var g := w.graphs(f.graph); FirstRoute(Nearest(g, f.pose.value), g, f.pose.value, node, w)
  }

  // ------------------------------------------------------------ with a cache

  datatype Entry = Entry(key: nat, tree: Tree)

  const LIMIT: nat := 2

  /** Retained trees are listed oldest first. */
  datatype Cache = Cache(
    graph: Option<nat>, edges: map<nat, Edge>, trees: seq<Entry>, stamp: Option<int>, starts: seq<nat>)

  const EMPTY := Cache(None, map[], [], None, [])

  function Lookup(trees: seq<Entry>, key: nat): Option<Tree> {
    if trees == [] then None else if trees[0].key == key then Some(trees[0].tree) else Lookup(trees[1..], key)
  }

  function Drop(trees: seq<Entry>, key: nat): seq<Entry> {
    if trees == [] then []
    else if trees[0].key == key then trees[1..] else [trees[0]] + Drop(trees[1..], key)
  }

  function Evict(trees: seq<Entry>): seq<Entry> { if |trees| > LIMIT then Evict(trees[1..]) else trees }

  /** Uses a tree: it becomes the newest, and the oldest ones beyond the limit go. */
  function Touch(trees: seq<Entry>, key: nat, t: Tree): seq<Entry> { Evict(Drop(trees, key) + [Entry(key, t)]) }

  function Fetch(trees: seq<Entry>, key: nat, g: Graph, w: World): Tree {
    var held := Lookup(trees, key);
    if held.Some? then held.value else w.tree(g, key)
  }

  /** Refreshes the graph- and stamp-bound parts before a query. */
  function Refresh(c: Cache, f: Frame, pose: Pose, w: World): Cache {
    var g := w.graphs(f.graph);
    var bound := if c.graph == Some(f.graph) then c else Cache(Some(f.graph), EdgeTable(g.edges), [], None, []);
    if bound.stamp == Some(f.stamp) then bound
    else bound.(starts := Nearest(g, pose), stamp := Some(f.stamp))
  }

  /** Every retained tree is the one planning would compute now. */
  ghost predicate Faithful(trees: seq<Entry>, g: Graph, w: World) {
    && |trees| <= LIMIT
    && (forall i :: 0 <= i < |trees| ==> trees[i].tree == w.tree(g, trees[i].key))
    && forall i, j :: 0 <= i < j < |trees| ==> trees[i].key != trees[j].key
  }

  ghost predicate Inv(c: Cache, w: World) {
    && (c.graph.Some? ==> Faithful(c.trees, w.graphs(c.graph.value), w)
                          && c.edges == EdgeTable(w.graphs(c.graph.value).edges))
    && (c.graph.None? ==> c == EMPTY)
  }

  lemma {:induction false} LookupFaithful(trees: seq<Entry>, key: nat, g: Graph, w: World)
    requires Faithful(trees, g, w)
    ensures Fetch(trees, key, g, w) == w.tree(g, key)
  {
    if trees != [] && trees[0].key != key { LookupFaithful(trees[1..], key, g, w); }
  }

  lemma {:induction false} DropFaithful(trees: seq<Entry>, key: nat, g: Graph, w: World)
    requires Faithful(trees, g, w)
    ensures Faithful(Drop(trees, key), g, w) && |Drop(trees, key)| <= |trees|
    ensures forall e :: e in Drop(trees, key) <==> e in trees && e.key != key
  {
    if trees != [] {
      assert trees == [trees[0]] + trees[1..];
      if trees[0].key != key {
        DropFaithful(trees[1..], key, g, w);
        forall j | 0 <= j < |Drop(trees[1..], key)| ensures Drop(trees[1..], key)[j].key != trees[0].key {
          assert Drop(trees[1..], key)[j] in trees[1..];
        }
      }
    }
  }

  /** Touching keeps the retained trees faithful and within the limit, and the
      touched one is the newest. */
  lemma TouchFaithful(trees: seq<Entry>, key: nat, g: Graph, w: World)
    requires Faithful(trees, g, w)
    ensures var after := Touch(trees, key, w.tree(g, key));
            Faithful(after, g, w) && after != [] && after[|after| - 1] == Entry(key, w.tree(g, key))
  {
    DropFaithful(trees, key, g, w);
    var kept := Drop(trees, key);
    forall i | 0 <= i < |kept| ensures kept[i].key != key { assert kept[i] in kept; }
    assert |kept| <= LIMIT;
    var all := kept + [Entry(key, w.tree(g, key))];
    if |kept| == LIMIT { assert Evict(all[1..]) == all[1..]; }
  }

  /** The search over the starts, using and filling the cache. */
  function Search(trees: seq<Entry>, starts: seq<nat>, edges: map<nat, Edge>, g: Graph, pose: Pose, node: nat, w: World)
    : (seq<Entry>, Option<Path>)
    requires WellFormed(w) && Faithful(trees, g, w) && edges == EdgeTable(g.edges)
    decreases |starts|
  {
    if starts == [] then (trees, None)
    else
      LookupFaithful(trees, starts[0], g, w);
      TouchFaithful(trees, starts[0], g, w);
      var t := Fetch(trees, starts[0], g, w);
      var after := Touch(trees, starts[0], t);
      TreesInGraph(w, g, starts[0]);
      var route := RouteBy(t, edges, pose, node, w);
      if route.Some? then (after, route) else Search(after, starts[1..], edges, g, pose, node, w)
  }

  function Query(c: Cache, f: Frame, node: nat, w: World): (Cache, Option<Path>)
    requires WellFormed(w) && Inv(c, w)
  {
    if f.pose.None? then (c, None)
    else
      var ready := Refresh(c, f, f.pose.value, w);
      var (trees, route) := Search(ready.trees, ready.starts, ready.edges, w.graphs(f.graph), f.pose.value, node, w);
      (ready.(trees := trees), route)
  }

  lemma {:induction false} SearchFaithful(
    trees: seq<Entry>, starts: seq<nat>, edges: map<nat, Edge>, g: Graph, pose: Pose, node: nat, w: World)
    requires WellFormed(w) && Faithful(trees, g, w) && edges == EdgeTable(g.edges)
    ensures Faithful(Search(trees, starts, edges, g, pose, node, w).0, g, w)
    ensures Search(trees, starts, edges, g, pose, node, w).1 == FirstRoute(starts, g, pose, node, w)
    decreases |starts|
  {
    if starts != [] {
      LookupFaithful(trees, starts[0], g, w);
      TouchFaithful(trees, starts[0], g, w);
      TreesInGraph(w, g, starts[0]);
      SearchFaithful(Touch(trees, starts[0], w.tree(g, starts[0])), starts[1..], edges, g, pose, node, w);
    }
  }

  // -------------------------------------------------------------- whole runs

  datatype Op = QueryOp(frame: Frame, node: nat) | ResetOp

  function Step(c: Cache, op: Op, w: World): (Cache, Option<Path>)
    requires WellFormed(w) && Inv(c, w)
  {
    match op
    case QueryOp(f, node) => Query(c, f, node, w)
    case ResetOp => (EMPTY, None)
  }

  lemma StepInv(c: Cache, op: Op, w: World)
    requires WellFormed(w) && Inv(c, w)
    ensures Inv(Step(c, op, w).0, w)
  {
    match op
    case ResetOp =>
    case QueryOp(f, node) =>
      if f.pose.Some? {
        var ready := Refresh(c, f, f.pose.value, w);
        SearchFaithful(ready.trees, ready.starts, ready.edges, w.graphs(f.graph), f.pose.value, node, w);
      }
  }

  function Run(ops: seq<Op>, w: World): (c: Cache)
    requires WellFormed(w)
    ensures Inv(c, w)
  {
    if ops == [] then EMPTY
    else
      StepInv(Run(ops[..|ops| - 1], w), ops[|ops| - 1], w);
      Step(Run(ops[..|ops| - 1], w), ops[|ops| - 1], w).0
  }

  function ReplyAt(ops: seq<Op>, i: nat, w: World): Option<Path>
    requires WellFormed(w) && i < |ops|
  {
    Step(Run(ops[..i], w), ops[i], w).1
  }

  /** One pose per stamp. */
  ghost predicate PosesAgree(ops: seq<Op>, poseAt: int -> Pose) {
    forall i :: 0 <= i < |ops| && ops[i].QueryOp? && ops[i].frame.pose.Some? ==>
      ops[i].frame.pose.value == poseAt(ops[i].frame.stamp)
  }

  ghost predicate StartsAgree(c: Cache, poseAt: int -> Pose, w: World) {
    c.graph.Some? && c.stamp.Some? ==> c.starts == Nearest(w.graphs(c.graph.value), poseAt(c.stamp.value))
  }

  lemma {:induction false} StartsStayAgreed(ops: seq<Op>, poseAt: int -> Pose, w: World)
    requires WellFormed(w) && PosesAgree(ops, poseAt)
    ensures StartsAgree(Run(ops, w), poseAt, w)
  {
    if ops != [] {
      var n := |ops| - 1;
      assert forall i :: 0 <= i < n ==> ops[..n][i] == ops[i];
      StartsStayAgreed(ops[..n], poseAt, w);
    }
  }

  /** The cache is invisible: over every run of queries and resets, across graph
      changes and evictions, each query answers what planning from scratch would,
      as long as frames with one stamp carry one pose. */
  lemma CacheIsInvisible(ops: seq<Op>, i: nat, poseAt: int -> Pose, w: World)
    requires WellFormed(w) && PosesAgree(ops, poseAt) && i < |ops| && ops[i].QueryOp?
    ensures ReplyAt(ops, i, w) == Uncached(ops[i].frame, ops[i].node, w)
  {
    assert forall k :: 0 <= k < i ==> ops[..i][k] == ops[k];
    StartsStayAgreed(ops[..i], poseAt, w);
    var c, f := Run(ops[..i], w), ops[i].frame;
    if f.pose.Some? {
      var ready := Refresh(c, f, f.pose.value, w);
      SearchFaithful(ready.trees, ready.starts, ready.edges, w.graphs(f.graph), f.pose.value, ops[i].node, w);
    }
  }

  // --------------------------------------------- exactly when it is invisible

  /** What the remembered start order was computed for. */
  datatype Order = Order(graph: nat, stamp: int, pose: Pose)

  /** The query that last set the start order; it is set anew by every query that
      brings another graph or stamp and forgotten by a reset. */
  function OrderSet(ops: seq<Op>): Option<Order> {
    if ops == [] then None
    else
      var before := OrderSet(ops[..|ops| - 1]);
      match ops[|ops| - 1]
      case ResetOp => None
      case QueryOp(f, _) =>
        if f.pose.None? then before
        else if before.Some? && before.value.graph == f.graph && before.value.stamp == f.stamp then before
        else Some(Order(f.graph, f.stamp, f.pose.value))
  }

  ghost predicate OrderHeld(c: Cache, o: Option<Order>, w: World) {
    && (o.None? ==> c == EMPTY)
    && (o.Some? ==> c.graph == Some(o.value.graph) && c.stamp == Some(o.value.stamp)
                    && c.starts == Nearest(w.graphs(o.value.graph), o.value.pose))
  }

  lemma {:induction false} OrderIsHeld(ops: seq<Op>, w: World)
    requires WellFormed(w)
    ensures OrderHeld(Run(ops, w), OrderSet(ops), w)
  {
    if ops != [] { OrderIsHeld(ops[..|ops| - 1], w); }
  }

  /** Every reply is planning from scratch, but with the remembered start order. */
  lemma ReplyIs(ops: seq<Op>, i: nat, w: World)
    requires WellFormed(w) && i < |ops| && ops[i].QueryOp? && ops[i].frame.pose.Some?
    ensures OrderSet(ops[..i + 1]).Some?
    ensures var f, g := ops[i].frame, w.graphs(ops[i].frame.graph);
            ReplyAt(ops, i, w) ==
            FirstRoute(Nearest(g, OrderSet(ops[..i + 1]).value.pose), g, f.pose.value, ops[i].node, w)
  {
    assert ops[..i + 1][..i] == ops[..i];
    OrderIsHeld(ops[..i], w);
    var c, f := Run(ops[..i], w), ops[i].frame;
    hide Run;
    var ready := Refresh(c, f, f.pose.value, w);
    SearchFaithful(ready.trees, ready.starts, ready.edges, w.graphs(f.graph), f.pose.value, ops[i].node, w);
    hide Search, FirstRoute;
  }

  /** Three nodes, the goal beyond the second as seen from the first, and an edge from
      either of the first two to the goal. */
  function Line(p: Pose, q: Pose, goal: nat): Graph {
    Graph([Node(goal + 1, p.x, p.y), Node(goal + 2, q.x, q.y), Node(goal, q.x + (q.x - p.x), q.y + (q.y - p.y))],
          [Edge(1, goal + 1, goal, true, 1.0), Edge(2, goal + 2, goal, true, 1.0)])
  }

  /** Its trees; every other graph has a tree of no edges. */
  function LineTree(line: Graph, goal: nat, g: Graph, start: nat): Tree {
    var here := Path([], 0.0);
    if g != line then map[start := here]
    else if start == goal + 1 then map[start := here, goal := Path([1], 1.0), goal + 2 := Path([1, 2], 2.0)]
    else if start == goal + 2 then map[start := here, goal := Path([2], 1.0), goal + 1 := Path([2, 1], 2.0)]
    else if start == goal then map[start := here, goal + 1 := Path([1], 1.0), goal + 2 := Path([2], 1.0)]
    else map[start := here]
  }

  function LineWorld(p: Pose, q: Pose, goal: nat): World {
    var line := Line(p, q, goal);
    World(_ => line, (g: Graph, start) => LineTree(line, goal, g, start), (path, _, _) => Some(path))
  }

  lemma LineEdges(p: Pose, q: Pose, goal: nat)
    ensures EdgeTable(Line(p, q, goal).edges) ==
            map[1 := Edge(1, goal + 1, goal, true, 1.0), 2 := Edge(2, goal + 2, goal, true, 1.0)]
  {
    var edges := Line(p, q, goal).edges;
    assert edges[..1] == [edges[0]] && edges[..1][..0] == [];
    assert EdgeTable(edges[..1]) == map[1 := edges[0]];
  }

  lemma LineTreeLeads(p: Pose, q: Pose, goal: nat, g: Graph, start: nat)
    ensures IsTree(LineTree(Line(p, q, goal), goal, g, start), EdgeTable(g.edges), start)
  {
    LineEdges(p, q, goal);
    var table := EdgeTable(Line(p, q, goal).edges);
    hide EdgeTable;
    assert Leads([], table, goal, goal) && Leads([], table, goal + 1, goal + 1) && Leads([], table, goal + 2, goal + 2);
    assert [1, 2][1..] == [2] && [2, 1][1..] == [1] && [1][1..] == [] && [2][1..] == [];
    assert Leads([1], table, goal + 1, goal) && Leads([1], table, goal, goal + 1);
    assert Leads([2], table, goal + 2, goal) && Leads([2], table, goal, goal + 2);
    assert Leads([1, 2], table, goal + 1, goal + 2) && Leads([2, 1], table, goal + 2, goal + 1);
  }

  lemma LineWellFormed(p: Pose, q: Pose, goal: nat)
    ensures WellFormed(LineWorld(p, q, goal))
  {
    var w := LineWorld(p, q, goal);
    hide EdgeTable, IsTree, LineTree;
    forall g: Graph, start: nat ensures IsTree(w.tree(g, start), EdgeTable(g.edges), start) {
      LineTreeLeads(p, q, goal, g, start);
    }
  }

  predicate SamePosition(p: Pose, q: Pose) { p.x == q.x && p.y == q.y }

  lemma Apart(p: Pose, q: Pose)
    requires !SamePosition(p, q)
    ensures Times(p.x - q.x, p.x - q.x) + Times(p.y - q.y, p.y - q.y) > 0.0
    ensures Times(q.x - p.x, q.x - p.x) == Times(p.x - q.x, p.x - q.x)
    ensures Times(q.y - p.y, q.y - p.y) == Times(p.y - q.y, p.y - q.y)
    ensures Times(0.0, 0.0) == 0.0
  {
    SquareSign(p.x - q.x);
    SquareSign(p.y - q.y);
    assert Times(-(p.x - q.x), -(p.x - q.x)) == Times(p.x - q.x, p.x - q.x);
    assert Times(-(p.y - q.y), -(p.y - q.y)) == Times(p.y - q.y, p.y - q.y);
  }

  lemma Twice(d: real)
    ensures Times(d + d, d + d) == Times(d, d) + Times(d, d) + Times(d, d) + Times(d, d)
  {
  }

  /** The node at either position is the first one tried from there. */
  lemma LineOrder(p: Pose, q: Pose, goal: nat)
    requires !SamePosition(p, q)
    ensures Nearest(Line(p, q, goal), p) != [] && Nearest(Line(p, q, goal), p)[0] == goal + 1
    ensures Nearest(Line(p, q, goal), q) != [] && Nearest(Line(p, q, goal), q)[0] == goal + 2
  {
    var nodes := Line(p, q, goal).nodes;
    var a, b, c := nodes[0], nodes[1], nodes[2];
    Apart(p, q);
    var d := Times(p.x - q.x, p.x - q.x) + Times(p.y - q.y, p.y - q.y);
    assert Squared(a, p) == 0.0 && Squared(b, q) == 0.0;
    assert Squared(b, p) == d && Squared(a, q) == d;
    Twice(q.x - p.x);
    Twice(q.y - p.y);
    assert Squared(c, p) == d + d + d + d by {
      assert c.x - p.x == (q.x - p.x) + (q.x - p.x) && c.y - p.y == (q.y - p.y) + (q.y - p.y);
    }
    assert Squared(c, q) == d by { assert c.x - q.x == q.x - p.x && c.y - q.y == q.y - p.y; }
    hide Squared, Times;
    assert nodes[1..] == [b, c] && nodes[1..][1..] == [c] && [c][1..] == [];
    assert SortNear([c], p) == [c] && SortNear([c], q) == [c];
    assert SortNear([b, c], p) == [b, c] && SortNear([b, c], q) == [b, c] by { assert [b, c][1..] == [c]; }
    assert SortNear(nodes, p) == InsertNear(a, [b, c], p) == [a] + [b, c];
    assert [b, c][1..] == [c];
    assert SortNear(nodes, q) == InsertNear(a, [b, c], q) == [b] + InsertNear(a, [c], q);
  }

  lemma LineRoute(p: Pose, q: Pose, goal: nat, starts: seq<nat>, pose: Pose, i: nat)
    requires starts != [] && 1 <= i <= 2 && starts[0] == goal + i
    ensures WellFormed(LineWorld(p, q, goal))
    ensures FirstRoute(starts, Line(p, q, goal), pose, goal, LineWorld(p, q, goal)) == Some(Path([i], 1.0))
  {
    LineWellFormed(p, q, goal);
    LineEdges(p, q, goal);
    hide EdgeTable;
    var w, g := LineWorld(p, q, goal), Line(p, q, goal);
    TreesInGraph(w, g, starts[0]);
    assert w.tree(g, starts[0]) == LineTree(g, goal, g, starts[0]);
    assert w.tree(g, starts[0])[goal] == Path([i], 1.0);
  }

  /** Exactly when a query's answer is that of planning from scratch, whatever the
      world: when its pose is where the remembered start order was computed. */
  lemma InvisibleExactlyWhen(ops: seq<Op>, i: nat)
    requires i < |ops| && ops[i].QueryOp? && ops[i].frame.pose.Some?
    ensures OrderSet(ops[..i + 1]).Some?
    ensures (forall w: World | WellFormed(w) :: ReplyAt(ops, i, w) == Uncached(ops[i].frame, ops[i].node, w))
            <==> SamePosition(OrderSet(ops[..i + 1]).value.pose, ops[i].frame.pose.value)
  {
    OrderIsSet(ops, i);
    var f, node := ops[i].frame, ops[i].node;
    var pose, held := f.pose.value, OrderSet(ops[..i + 1]).value.pose;
    if SamePosition(held, pose) {
      forall w: World | WellFormed(w) ensures ReplyAt(ops, i, w) == Uncached(f, node, w) {
        ReplyIs(ops, i, w);
        PositionDecides(w.graphs(f.graph).nodes, held, pose);
        hide FirstRoute, Search, Run, ReplyAt, OrderSet, SortNear, WellFormed;
      }
    } else {
      DiffersSomewhere(ops, i);
    }
  }

  lemma OrderIsSet(ops: seq<Op>, i: nat)
    requires i < |ops| && ops[i].QueryOp? && ops[i].frame.pose.Some?
    ensures OrderSet(ops[..i + 1]).Some?
  {
    assert ops[..i + 1][..i] == ops[..i];
  }

  lemma DiffersSomewhere(ops: seq<Op>, i: nat)
    requires i < |ops| && ops[i].QueryOp? && ops[i].frame.pose.Some? && OrderSet(ops[..i + 1]).Some?
    requires !SamePosition(OrderSet(ops[..i + 1]).value.pose, ops[i].frame.pose.value)
    ensures exists w: World :: WellFormed(w) && ReplyAt(ops, i, w) != Uncached(ops[i].frame, ops[i].node, w)
  {
    var f, node := ops[i].frame, ops[i].node;
    var pose, held := f.pose.value, OrderSet(ops[..i + 1]).value.pose;
    var w, g := LineWorld(pose, held, node), Line(pose, held, node);
    LineOrder(pose, held, node);
    LineRoute(pose, held, node, Nearest(g, pose), pose, 1);
    LineRoute(pose, held, node, Nearest(g, held), pose, 2);
    ReplyIs(ops, i, w);
    hide FirstRoute, Search, Run, ReplyAt, OrderSet, SortNear, WellFormed, LineTree, Line, Nearest;
    assert w.graphs(f.graph) == g;
    assert ReplyAt(ops, i, w) != Uncached(f, node, w);
  }

  /** So in a direct run of queries a second position under one stamp, without another
      graph, stamp or reset in between, is answered from the first one's start order. */
  lemma SecondPoseIsIgnored()
    ensures exists w: World, ops: seq<Op> ::
      WellFormed(w) && |ops| == 2 && ops[1].QueryOp? && ReplyAt(ops, 1, w) != Uncached(ops[1].frame, ops[1].node, w)
  {
    var left, right := Pose(-1.0, 0.0, 0.0, 0.0), Pose(1.0, 0.0, 0.0, 0.0);
    var ops := [QueryOp(Frame(0, Some(left), 0), 9), QueryOp(Frame(0, Some(right), 0), 9)];
    assert ops[..2][..1] == [ops[0]] && [ops[0]][..0] == [] && ops[..2] == ops;
    assert OrderSet([ops[0]]) == Some(Order(0, 0, left));
    assert OrderSet(ops[..2]) == Some(Order(0, 0, left));
    hide ReplyAt, Uncached, WellFormed, OrderSet;
    DiffersSomewhere(ops, 1);
  }

  // ------------------------------------------------------ under the policy

  /** What reaches the policy: frames, each with the nodes it asks routes to, and
      resets of the navigation context at any time. */
  datatype Call = Cycle(frame: Frame, nodes: seq<nat>) | ContextReset

  function Queries(f: Frame, nodes: seq<nat>): (ops: seq<Op>)
    ensures |ops| == |nodes| && forall i :: 0 <= i < |nodes| ==> ops[i] == QueryOp(f, nodes[i])
  {
    if nodes == [] then [] else [QueryOp(f, nodes[0])] + Queries(f, nodes[1..])
  }

  /** The cache operations of a run of the policy, which refuses a frame that is not
      newer than the last accepted one. */
  function PolicyOps(calls: seq<Call>, last: Option<int>): seq<Op> {
    if calls == [] then []
    else
      match calls[0]
      case ContextReset => [ResetOp] + PolicyOps(calls[1..], last)
      case Cycle(f, nodes) =>
        if last.Some? && f.stamp <= last.value then PolicyOps(calls[1..], last)
        else Queries(f, nodes) + PolicyOps(calls[1..], Some(f.stamp))
  }

  ghost predicate After(op: Op, last: Option<int>) { op.QueryOp? && last.Some? ==> op.frame.stamp > last.value }

  /** One frame per stamp. */
  ghost predicate OneFrame(a: Op, b: Op) {
    a.QueryOp? && b.QueryOp? && a.frame.stamp == b.frame.stamp ==> a.frame == b.frame
  }

  lemma {:induction false} PolicyFrames(calls: seq<Call>, last: Option<int>)
    ensures forall op :: op in PolicyOps(calls, last) ==> After(op, last)
    ensures forall a, b :: a in PolicyOps(calls, last) && b in PolicyOps(calls, last) ==> OneFrame(a, b)
  {
    if calls != [] {
      match calls[0]
      case ContextReset => PolicyFrames(calls[1..], last);
      case Cycle(f, nodes) =>
        if last.Some? && f.stamp <= last.value {
          PolicyFrames(calls[1..], last);
        } else {
          PolicyFrames(calls[1..], Some(f.stamp));
          var now, later := Queries(f, nodes), PolicyOps(calls[1..], Some(f.stamp));
          forall op | op in now ensures op.QueryOp? && op.frame == f {}
          forall op | op in later ensures After(op, last) { assert After(op, Some(f.stamp)); }
          forall a, b | a in now + later && b in now + later ensures OneFrame(a, b) {
            assert a in later ==> After(a, Some(f.stamp));
            assert b in later ==> After(b, Some(f.stamp));
          }
        }
    }
  }

  /** The remembered start order stems from a query with its stamp and pose. */
  lemma {:induction false} OrderFromQuery(ops: seq<Op>) returns (k: nat)
    requires OrderSet(ops).Some?
    ensures k < |ops| && ops[k].QueryOp?
    ensures ops[k].frame.stamp == OrderSet(ops).value.stamp && ops[k].frame.pose == Some(OrderSet(ops).value.pose)
  {
    var n := |ops| - 1;
    if OrderSet(ops) == OrderSet(ops[..n]) { k := OrderFromQuery(ops[..n]); } else { k := n; }
  }

  /** Under the policy the cache is invisible without any condition: over every run of
      frames, queries and resets each reply is that of planning from scratch. */
  lemma PolicyNeverNotices(calls: seq<Call>, i: nat, w: World)
    requires WellFormed(w)
    requires i < |PolicyOps(calls, None)| && PolicyOps(calls, None)[i].QueryOp?
    ensures var ops := PolicyOps(calls, None);
            ReplyAt(ops, i, w) == Uncached(ops[i].frame, ops[i].node, w)
  {
    var ops := PolicyOps(calls, None);
    if ops[i].frame.pose.Some? {
      PolicyFrames(calls, None);
      OrderIsSet(ops, i);
      OrderIsCurrent(ops, i);
      var k := OrderFromQuery(ops[..i + 1]);
      assert ops[k] in ops && ops[i] in ops;
      assert OneFrame(ops[k], ops[i]);
      hide PolicyOps, WellFormed, ReplyAt, Uncached, OrderSet;
      InvisibleExactlyWhen(ops, i);
    }
  }

  lemma OrderIsCurrent(ops: seq<Op>, i: nat)
    requires i < |ops| && ops[i].QueryOp? && ops[i].frame.pose.Some?
    ensures OrderSet(ops[..i + 1]).Some? && OrderSet(ops[..i + 1]).value.stamp == ops[i].frame.stamp
  {
    assert ops[..i + 1][..i] == ops[..i];
  }

  /** At most two trees are retained after every step, each the current graph's. */
  lemma RetainedAreCurrent(ops: seq<Op>, w: World)
    requires WellFormed(w)
    ensures var c := Run(ops, w);
            && |c.trees| <= 2
            && forall k :: 0 <= k < |c.trees| ==>
                 c.graph.Some? && c.trees[k].tree == w.tree(w.graphs(c.graph.value), c.trees[k].key)
  {
    hide Run;
  }

  // --------------------------------------------------------- the policy's part

  class RouteCache {
    const world: World
    var graph: Option<nat>
    var edges: map<nat, Edge>
    var trees: seq<Entry>
    var stamp: Option<int>
    var starts: seq<nat>

    ghost function Abs(): Cache
      reads this
    {
      Cache(graph, edges, trees, stamp, starts)
    }

    ghost predicate Valid()
      reads this
    {
      WellFormed(world) && Inv(Abs(), world)
    }

    constructor (w: World)
      requires WellFormed(w)
      ensures Valid() && world == w && Abs() == EMPTY
    {
      world := w;
      graph, edges, trees, stamp, starts := None, map[], [], None, [];
    }

    /** Forgets everything bound to the old context. */
    method Reset()
      requires Valid()
      modifies this
      ensures Valid() && Abs() == EMPTY
    {
      graph, edges, trees, stamp, starts := None, map[], [], None, [];
    }

    method PathToNode(f: Frame, node: nat) returns (route: Option<Path>)
      requires Valid()
      modifies this
      ensures Valid()
      ensures (Abs(), route) == Query(old(Abs()), f, node, world)
    {
      StepInv(Abs(), QueryOp(f, node), world);
      if f.pose.None? { return None; }
      var pose, g := f.pose.value, world.graphs(f.graph);
      hide Nearest, RouteBy, WellFormed;
      ghost var ready := Refresh(Abs(), f, pose, world);
      if graph != Some(f.graph) {
        graph, edges, trees, stamp, starts := Some(f.graph), EdgeTable(g.edges), [], None, [];
      }
      if stamp != Some(f.stamp) {
        starts, stamp := Nearest(g, pose), Some(f.stamp);
      }
      assert Abs() == ready;
      for i := 0 to |starts|
        invariant graph == Some(f.graph) && edges == ready.edges && stamp == ready.stamp && starts == ready.starts
        invariant Faithful(trees, g, world)
        invariant Search(ready.trees, starts, edges, g, pose, node, world) ==
                  Search(trees, starts[i..], edges, g, pose, node, world)
      {
        var start := starts[i];
        assert starts[i..][1..] == starts[i + 1..];
        LookupFaithful(trees, start, g, world);
        TouchFaithful(trees, start, g, world);
        TreesInGraph(world, g, start);
        var tree := Fetch(trees, start, g, world);
        trees := Touch(trees, start, tree);
        route := RouteBy(tree, edges, pose, node, world);
        if route.Some? { return; }
      }
      route := None;
    }
  }
}
