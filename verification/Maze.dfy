/** Maze grids: the topology built from the open cells and the connectivity
    check over it. */
module Maze {
  import opened Reachability

  /** Rows of equal positive length; '.' is open. */
  predicate ValidRows(rows: seq<string>) {
    && |rows| > 0 && |rows[0]| > 0
    && forall i :: 0 <= i < |rows| ==> |rows[i]| == |rows[0]|
  }

  datatype Cell = Cell(row: int, col: int)

  predicate IsOpen(rows: seq<string>, c: Cell)
    requires ValidRows(rows)
  {
    0 <= c.row < |rows| && 0 <= c.col < |rows[0]| && rows[c.row][c.col] == '.'
  }

  function NodeId(width: nat, c: Cell): int { c.row * width + c.col }

  /** Distinct cells of the grid have distinct ids. */
  lemma NodeIdInjective(width: nat, a: Cell, b: Cell)
    requires 0 <= a.col < width && 0 <= b.col < width && NodeId(width, a) == NodeId(width, b)
    ensures a == b
  {
    var d := a.row - b.row;
    assert d * width == b.col - a.col;
    Multiple(d, width);
  }

  lemma Multiple(d: int, w: int)
    requires w >= 0
    ensures d >= 1 ==> d * w >= w
    ensures d <= -1 ==> d * w <= -w
  {
  }

  lemma NodeIdNonnegative(width: nat, c: Cell)
    requires 0 <= c.row && 0 <= c.col
    ensures NodeId(width, c) >= 0
  {
    assert c.row * width >= 0;
  }

  predicate Adjacent4(a: Cell, b: Cell) {
    || (a.row == b.row && (a.col == b.col + 1 || b.col == a.col + 1))
    || (a.col == b.col && (a.row == b.row + 1 || b.row == a.row + 1))
  }

  // ----------------------------------------------------- grid connectivity

  ghost predicate GridPath(rows: seq<string>, p: seq<Cell>, a: Cell, b: Cell)
    requires ValidRows(rows)
  {
    && p != [] && p[0] == a && p[|p| - 1] == b
    && (forall i :: 0 <= i < |p| ==> IsOpen(rows, p[i]))
    && forall i :: 0 <= i < |p| - 1 ==> Adjacent4(p[i], p[i + 1])
  }

  ghost predicate GridConnected(rows: seq<string>, a: Cell, b: Cell)
    requires ValidRows(rows)
  {
    exists p :: GridPath(rows, p, a, b)
  }

  ghost predicate AllOpenConnected(rows: seq<string>)
    requires ValidRows(rows)
  {
    forall a, b :: IsOpen(rows, a) && IsOpen(rows, b) ==> GridConnected(rows, a, b)
  }

  // -------------------------------------------------------------- topology

  datatype Edge = Edge(id: nat, start: nat, end: nat)

  /** The topology: node ids in row-major order and edges to the right and below. */
  datatype Topology = Topology(nodes: seq<nat>, edges: seq<Edge>)

  ghost predicate OpenId(rows: seq<string>, u: int)
    requires ValidRows(rows)
  {
    exists c :: IsOpen(rows, c) && NodeId(|rows[0]|, c) == u
  }

  /** u and v are the ids of orthogonally adjacent open cells. */
  ghost predicate AdjacentIds(rows: seq<string>, u: int, v: int)
    requires ValidRows(rows)
  {
    exists a, b :: IsOpen(rows, a) && IsOpen(rows, b) && Adjacent4(a, b)
                   && NodeId(|rows[0]|, a) == u && NodeId(|rows[0]|, b) == v
  }

  ghost predicate EdgeBetween(edges: seq<Edge>, u: int, v: int) {
    exists e :: e in edges && ((e.start == u && e.end == v) || (e.start == v && e.end == u))
  }

  ghost predicate TopologyOf(rows: seq<string>, t: Topology)
    requires ValidRows(rows)
  {
    && (forall u :: u in t.nodes <==> OpenId(rows, u))
    && (forall i, j :: 0 <= i < j < |t.nodes| ==> t.nodes[i] != t.nodes[j])
    && (forall i :: 0 <= i < |t.edges| ==> t.edges[i].id == i)
    && forall u, v :: EdgeBetween(t.edges, u, v) <==> AdjacentIds(rows, u, v)
  }

  /** Cells strictly before (row, col) in row-major order. */
  predicate Earlier(c: Cell, row: int, col: int) { c.row < row || (c.row == row && c.col < col) }

  ghost predicate NodesSoFar(rows: seq<string>, nodes: seq<nat>, row: int, col: int)
    requires ValidRows(rows)
  {
    var width := |rows[0]|;
    && (forall u :: u in nodes <==> exists c :: IsOpen(rows, c) && Earlier(c, row, col) && NodeId(width, c) == u)
    && forall i, j :: 0 <= i < j < |nodes| ==> nodes[i] != nodes[j]
  }

  /** The edge from a to its right or lower neighbour b. */
  predicate Forward(a: Cell, b: Cell) { b == Cell(a.row, a.col + 1) || b == Cell(a.row + 1, a.col) }

  ghost predicate ForwardEdge(rows: seq<string>, a: Cell, b: Cell, u: int, v: int)
    requires ValidRows(rows)
  {
    IsOpen(rows, a) && IsOpen(rows, b) && Forward(a, b) && NodeId(|rows[0]|, a) == u && NodeId(|rows[0]|, b) == v
  }

  ghost predicate EdgesSoFar(rows: seq<string>, edges: seq<Edge>, row: int, col: int)
    requires ValidRows(rows)
  {
    && (forall i :: 0 <= i < |edges| ==> edges[i].id == i)
    && (forall e :: e in edges ==> exists a, b :: Earlier(a, row, col) && ForwardEdge(rows, a, b, e.start, e.end))
    && forall a, b, u, v :: Earlier(a, row, col) && ForwardEdge(rows, a, b, u, v) ==>
         exists e :: e in edges && e.start == u && e.end == v
  }

  /** Edges from c to its open right and lower neighbours. */
  method AppendEdges(rows: seq<string>, edges: seq<Edge>, c: Cell) returns (after: seq<Edge>)
    requires ValidRows(rows) && IsOpen(rows, c) && EdgesSoFar(rows, edges, c.row, c.col)
    ensures EdgesSoFar(rows, after, c.row, c.col + 1)
  {
    hide EdgesSoFar, NodeId;
    var width := |rows[0]|;
    var right, below := Cell(c.row, c.col + 1), Cell(c.row + 1, c.col);
    NodeIdNonnegative(width, c);
    NodeIdNonnegative(width, right);
    NodeIdNonnegative(width, below);
    var u, r, d: nat := NodeId(width, c), NodeId(width, right), NodeId(width, below);
    EdgeIds(rows, edges, c.row, c.col);
    var added: seq<Edge> := [];
    if IsOpen(rows, right) {
      added := added + [Edge(|edges|, u, r)];
    }
    if IsOpen(rows, below) {
      added := added + [Edge(|edges| + |added|, u, d)];
    }
    after := edges + added;
    ForwardTargets(rows, edges, added, c);
    AddEdges(rows, edges, after, c);
  }

  lemma EdgeIds(rows: seq<string>, edges: seq<Edge>, row: int, col: int)
    requires ValidRows(rows) && EdgesSoFar(rows, edges, row, col)
    ensures forall i :: 0 <= i < |edges| ==> edges[i].id == i
  {
  }

  /** The edge goes from c to its right or lower open neighbour. */
  ghost predicate LeavesForward(rows: seq<string>, c: Cell, e: Edge)
    requires ValidRows(rows)
  {
    exists b :: ForwardEdge(rows, c, b, e.start, e.end)
  }

  /** The appended edges are exactly the forward edges of c. */
  lemma ForwardTargets(rows: seq<string>, edges: seq<Edge>, added: seq<Edge>, c: Cell)
    requires ValidRows(rows) && IsOpen(rows, c)
    requires
      var w := |rows[0]|;
      var right, below := Cell(c.row, c.col + 1), Cell(c.row + 1, c.col);
      && (forall e :: e in added ==> (
            e.start == NodeId(w, c)
            && ((IsOpen(rows, right) && e.end == NodeId(w, right))
                || (IsOpen(rows, below) && e.end == NodeId(w, below)))))
      && (IsOpen(rows, right) ==> exists e :: e in added && e.start == NodeId(w, c) && e.end == NodeId(w, right))
      && (IsOpen(rows, below) ==> exists e :: e in added && e.start == NodeId(w, c) && e.end == NodeId(w, below))
    ensures forall e :: e in added ==> LeavesForward(rows, c, e)
    ensures forall b, u, v :: ForwardEdge(rows, c, b, u, v) ==>
              exists e :: e in edges + added && e.start == u && e.end == v
  {
    hide NodeId;
    var w := |rows[0]|;
    var right, below := Cell(c.row, c.col + 1), Cell(c.row + 1, c.col);
    forall e | e in added ensures LeavesForward(rows, c, e) {
      var b := if IsOpen(rows, right) && e.end == NodeId(w, right) then right else below;
      assert ForwardEdge(rows, c, b, e.start, e.end);
    }
    forall b, u, v | ForwardEdge(rows, c, b, u, v)
      ensures exists e :: e in edges + added && e.start == u && e.end == v {
      var e :| e in added && e.start == NodeId(w, c) && e.end == NodeId(w, b);
      assert e in edges + added;
    }
  }

  method BuildTopology(rows: seq<string>) returns (t: Topology)
    requires ValidRows(rows)
    ensures TopologyOf(rows, t)
  {
    hide NodesSoFar, EdgesSoFar, NodeId;
    var height, width := |rows|, |rows[0]|;
    NothingYet(rows);
    var nodes: seq<nat>, edges: seq<Edge> := [], [];
    for row := 0 to height
      invariant NodesSoFar(rows, nodes, row, 0) && EdgesSoFar(rows, edges, row, 0)
    {
      for col := 0 to width
        invariant NodesSoFar(rows, nodes, row, col) && EdgesSoFar(rows, edges, row, col)
      {
        var c := Cell(row, col);
        if rows[row][col] == '.' {
          NodeIdNonnegative(width, c);
          AddNode(rows, nodes, c);
          nodes := nodes + [NodeId(width, c)];
          edges := AppendEdges(rows, edges, c);
        } else {
          SkipCell(rows, nodes, edges, c);
        }
      }
      NextRow(rows, nodes, edges, row);
    }
    t := Topology(nodes, edges);
    TopologyBuilt(rows, t);
  }

  lemma NothingYet(rows: seq<string>)
    requires ValidRows(rows)
    ensures NodesSoFar(rows, [], 0, 0) && EdgesSoFar(rows, [], 0, 0)
  {
  }

  lemma AddNode(rows: seq<string>, nodes: seq<nat>, c: Cell)
    requires ValidRows(rows) && IsOpen(rows, c) && NodeId(|rows[0]|, c) >= 0
    requires NodesSoFar(rows, nodes, c.row, c.col)
    ensures NodesSoFar(rows, nodes + [NodeId(|rows[0]|, c)], c.row, c.col + 1)
  {
    var width := |rows[0]|;
    var u := NodeId(width, c);
    if u in nodes {
      var d :| IsOpen(rows, d) && Earlier(d, c.row, c.col) && NodeId(width, d) == u;
      NodeIdInjective(width, c, d);
    }
    forall x ensures x in nodes + [u] <==>
        exists d :: IsOpen(rows, d) && Earlier(d, c.row, c.col + 1) && NodeId(width, d) == x {
      if exists d :: IsOpen(rows, d) && Earlier(d, c.row, c.col + 1) && NodeId(width, d) == x {
        var d :| IsOpen(rows, d) && Earlier(d, c.row, c.col + 1) && NodeId(width, d) == x;
        assert d == c || Earlier(d, c.row, c.col);
      }
      if x == u { assert Earlier(c, c.row, c.col + 1); }
      if x in nodes {
        var d :| IsOpen(rows, d) && Earlier(d, c.row, c.col) && NodeId(width, d) == x;
        assert Earlier(d, c.row, c.col + 1);
      }
    }
  }

  /** Appending the forward edges of c extends the edge list by exactly them. */
  lemma AddEdges(rows: seq<string>, before: seq<Edge>, after: seq<Edge>, c: Cell)
    requires ValidRows(rows) && IsOpen(rows, c) && EdgesSoFar(rows, before, c.row, c.col)
    requires |before| <= |after| && after[..|before|] == before
    requires forall i :: 0 <= i < |after| ==> after[i].id == i
    requires forall e :: e in after ==> e in before || LeavesForward(rows, c, e)
    requires forall b, u, v :: ForwardEdge(rows, c, b, u, v) ==> exists e :: e in after && e.start == u && e.end == v
    ensures EdgesSoFar(rows, after, c.row, c.col + 1)
  {
    forall e | e in after
      ensures exists a, b :: Earlier(a, c.row, c.col + 1) && ForwardEdge(rows, a, b, e.start, e.end) {
      if e in before {
        var a, b :| Earlier(a, c.row, c.col) && ForwardEdge(rows, a, b, e.start, e.end);
        assert Earlier(a, c.row, c.col + 1);
      } else {
        var b :| ForwardEdge(rows, c, b, e.start, e.end);
        assert Earlier(c, c.row, c.col + 1);
      }
    }
    forall a, b, u, v | Earlier(a, c.row, c.col + 1) && ForwardEdge(rows, a, b, u, v)
      ensures exists e :: e in after && e.start == u && e.end == v {
      if a != c {
        assert Earlier(a, c.row, c.col);
        var e :| e in before && e.start == u && e.end == v;
        var i :| 0 <= i < |before| && before[i] == e;
        assert after[i] == e;
        assert e in after;
      }
    }
  }

  lemma SkipCell(rows: seq<string>, nodes: seq<nat>, edges: seq<Edge>, c: Cell)
    requires ValidRows(rows) && !IsOpen(rows, c)
    requires NodesSoFar(rows, nodes, c.row, c.col) && EdgesSoFar(rows, edges, c.row, c.col)
    ensures NodesSoFar(rows, nodes, c.row, c.col + 1) && EdgesSoFar(rows, edges, c.row, c.col + 1)
  {
    SameEarlier(rows, nodes, edges, c.row, c.col, c.row, c.col + 1);
  }

  lemma NextRow(rows: seq<string>, nodes: seq<nat>, edges: seq<Edge>, row: int)
    requires ValidRows(rows)
    requires NodesSoFar(rows, nodes, row, |rows[0]|) && EdgesSoFar(rows, edges, row, |rows[0]|)
    ensures NodesSoFar(rows, nodes, row + 1, 0) && EdgesSoFar(rows, edges, row + 1, 0)
  {
    SameEarlier(rows, nodes, edges, row, |rows[0]|, row + 1, 0);
  }

  /** Two scan positions with the same open cells before them. */
  lemma SameEarlier(rows: seq<string>, nodes: seq<nat>, edges: seq<Edge>, r: int, k: int, r': int, k': int)
    requires ValidRows(rows) && NodesSoFar(rows, nodes, r, k) && EdgesSoFar(rows, edges, r, k)
    requires forall c :: IsOpen(rows, c) ==> (Earlier(c, r, k) <==> Earlier(c, r', k'))
    ensures NodesSoFar(rows, nodes, r', k') && EdgesSoFar(rows, edges, r', k')
  {
    forall u ensures u in nodes <==> exists c :: IsOpen(rows, c) && Earlier(c, r', k') && NodeId(|rows[0]|, c) == u {
    }
    forall e | e in edges
      ensures exists a, b :: Earlier(a, r', k') && ForwardEdge(rows, a, b, e.start, e.end) {
      var a, b :| Earlier(a, r, k) && ForwardEdge(rows, a, b, e.start, e.end);
      assert Earlier(a, r', k');
    }
    forall a, b, u, v | Earlier(a, r', k') && ForwardEdge(rows, a, b, u, v)
      ensures exists e :: e in edges && e.start == u && e.end == v {
      assert Earlier(a, r, k);
    }
  }

  lemma NodesAreOpenCells(rows: seq<string>, nodes: seq<nat>)
    requires ValidRows(rows) && NodesSoFar(rows, nodes, |rows|, 0)
    ensures forall u :: u in nodes <==> OpenId(rows, u)
    ensures forall i, j :: 0 <= i < j < |nodes| ==> nodes[i] != nodes[j]
  {
    assert forall c :: IsOpen(rows, c) ==> Earlier(c, |rows|, 0);
  }

  lemma TopologyBuilt(rows: seq<string>, t: Topology)
    requires ValidRows(rows) && NodesSoFar(rows, t.nodes, |rows|, 0) && EdgesSoFar(rows, t.edges, |rows|, 0)
    ensures TopologyOf(rows, t)
  {
    assert forall c :: IsOpen(rows, c) ==> Earlier(c, |rows|, 0);
    NodesAreOpenCells(rows, t.nodes);
    forall u, v ensures EdgeBetween(t.edges, u, v) <==> AdjacentIds(rows, u, v) {
      EdgeIsAdjacency(rows, t.edges, u, v);
    }
    hide NodeId, NodesSoFar, OpenId, EdgesSoFar;
    EdgeIds(rows, t.edges, |rows|, 0);
  }

  lemma EdgeIsAdjacency(rows: seq<string>, edges: seq<Edge>, u: int, v: int)
    requires ValidRows(rows) && EdgesSoFar(rows, edges, |rows|, 0)
    ensures EdgeBetween(edges, u, v) <==> AdjacentIds(rows, u, v)
  {
    assert forall c :: IsOpen(rows, c) ==> Earlier(c, |rows|, 0);
    hide NodeId;
    if EdgeBetween(edges, u, v) {
      var e :| e in edges && ((e.start == u && e.end == v) || (e.start == v && e.end == u));
      var a, b :| Earlier(a, |rows|, 0) && ForwardEdge(rows, a, b, e.start, e.end);
      assert Adjacent4(a, b) && Adjacent4(b, a);
    }
    if AdjacentIds(rows, u, v) {
      var a, b :| IsOpen(rows, a) && IsOpen(rows, b) && Adjacent4(a, b)
                  && NodeId(|rows[0]|, a) == u && NodeId(|rows[0]|, b) == v;
      assert Forward(a, b) || Forward(b, a);
      if Forward(a, b) { assert ForwardEdge(rows, a, b, u, v); } else { assert ForwardEdge(rows, b, a, v, u); }
    }
  }

  // ---------------------------------------------------- connectivity check

  /** Both directions of every edge. */
  ghost function Links(edges: seq<Edge>): Relation {
    (set e | e in edges :: (e.start, e.end)) + (set e | e in edges :: (e.end, e.start))
  }

  /** Neighbours of u in adjacency order. */
  function Neighbours(edges: seq<Edge>, u: nat): (r: seq<nat>)
    ensures forall v :: v in r <==> (u, v) in Links(edges)
  {
    if edges == [] then []
    else
      assert forall e :: e in edges <==> e == edges[0] || e in edges[1..];
      (if edges[0].start == u then [edges[0].end] else [])
      + (if edges[0].end == u then [edges[0].start] else []) + Neighbours(edges[1..], u)
  }

  ghost predicate EndsInside(t: Topology) {
    forall e :: e in t.edges ==> e.start in t.nodes && e.end in t.nodes
  }

  /** The stack holds visited nodes, among them all that are not finished. */
  ghost predicate Tracked(visited: set<nat>, finished: set<nat>, stack: seq<nat>) {
    (forall u :: u in stack ==> u in visited) && forall u :: u in visited ==> u in finished || u in stack
  }

  /** Search state inside the reachable set `cls`: `finished` nodes have all
      their neighbours visited, the others are on the stack. */
  ghost predicate Searching(r: Relation, cls: set<nat>, visited: set<nat>, finished: set<nat>, start: nat,
                            stack: seq<nat>) {
    && start in visited && visited <= cls && finished <= visited
    && Tracked(visited, finished, stack)
    && forall u, v :: u in finished && (u, v) in r ==> v in visited
  }

  ghost function ReachedNodes(t: Topology, start: nat): set<nat> {
    set u | u in t.nodes && Reach(Links(t.edges), start, u)
  }

  lemma ReachedNodesClosed(t: Topology, start: nat)
    requires start in t.nodes && EndsInside(t)
    ensures Closed(Links(t.edges), ReachedNodes(t, start)) && start in ReachedNodes(t, start)
    ensures forall u :: u in ReachedNodes(t, start) <==> Reach(Links(t.edges), start, u)
  {
    var r := Links(t.edges);
    ReachSelf(r, start);
    var cls := ReachedNodes(t, start);
    forall a, b | a in cls && (a, b) in r ensures b in cls { ReachStep(r, start, a, b); }
    forall u | Reach(r, start, u) ensures u in cls { ReachStaysInside(r, cls, start, u); }
  }

  /** Depth-first search over the adjacency. */
  method Visit(t: Topology, start: nat) returns (visited: set<nat>)
    requires start in t.nodes && EndsInside(t)
    ensures forall v :: v in visited <==> Reach(Links(t.edges), start, v)
    ensures forall v :: v in visited ==> v in t.nodes
  {
    ghost var r, cls := Links(t.edges), ReachedNodes(t, start);
    ReachedNodesClosed(t, start);
    hide Links, Reach;
    visited := {start};
    var stack := [start];
    ghost var finished := {};
    while stack != []
      invariant Searching(r, cls, visited, finished, start, stack)
      decreases Work(cls, visited, stack)
    {
      visited, stack, finished := Expand(t.edges, visited, stack, start, cls, finished);
    }
    forall u | u in cls ensures u in visited { ReachStaysInside(r, visited, start, u); }
  }

  /** What is left to do: nodes not visited yet, and the stack. */
  ghost function Work(cls: set<nat>, visited: set<nat>, stack: seq<nat>): nat { |cls - visited| + |stack| }

  lemma PushKeepsWork(cls: set<nat>, visited: set<nat>, stack: seq<nat>, v: nat)
    requires v in cls && v !in visited
    ensures Work(cls, visited + {v}, stack + [v]) == Work(cls, visited, stack)
  {
    assert cls - visited == (cls - (visited + {v})) + {v};
  }

  /** One pop: every unvisited neighbour is visited and pushed. */
  method Expand(edges: seq<Edge>, visited0: set<nat>, stack0: seq<nat>, ghost start: nat, ghost cls: set<nat>,
                ghost finished0: set<nat>)
    returns (visited: set<nat>, stack: seq<nat>, ghost finished: set<nat>)
    requires stack0 != [] && Closed(Links(edges), cls)
    requires Searching(Links(edges), cls, visited0, finished0, start, stack0)
    ensures Searching(Links(edges), cls, visited, finished, start, stack)
    ensures Work(cls, visited, stack) == Work(cls, visited0, stack0) - 1
  {
    hide Links, Neighbours, Tracked, Work, Closed, Searching;
    var current := stack0[|stack0| - 1];
    visited, stack := visited0, stack0[..|stack0| - 1];
    finished := finished0 + {current};
    var next := Neighbours(edges, current);
    PopKeepsOrder(Links(edges), cls, visited0, finished0, start, stack0);
    for i := 0 to |next|
      invariant visited0 <= visited <= cls
      invariant Tracked(visited, finished, stack)
      invariant forall j :: 0 <= j < i ==> next[j] in visited
      invariant Work(cls, visited, stack) == Work(cls, visited0, stack0) - 1
    {
      var v := next[i];
      if v !in visited {
        InsideStays(edges, cls, current, v);
        PushKeepsWork(cls, visited, stack, v);
        PushTracked(visited, finished, stack, v);
        visited := visited + {v};
        stack := stack + [v];
      }
    }
    FinishCurrent(Links(edges), cls, visited0, visited, finished0, start, stack0, stack, next);
  }

  lemma PopKeepsOrder(r: Relation, cls: set<nat>, visited: set<nat>, finished: set<nat>, start: nat, stack: seq<nat>)
    requires Searching(r, cls, visited, finished, start, stack) && stack != []
    ensures stack[|stack| - 1] in visited && visited <= cls
    ensures Tracked(visited, finished + {stack[|stack| - 1]}, stack[..|stack| - 1])
    ensures Work(cls, visited, stack[..|stack| - 1]) == Work(cls, visited, stack) - 1
  {
    PopTracked(visited, finished, stack);
    hide Tracked;
  }

  lemma InsideStays(edges: seq<Edge>, cls: set<nat>, u: nat, v: nat)
    requires Closed(Links(edges), cls) && u in cls && v in Neighbours(edges, u)
    ensures v in cls
  {
    assert (u, v) in Links(edges);
    hide Links, Neighbours;
  }

  /** The popped node is finished once all its neighbours are visited. */
  lemma FinishCurrent(r: Relation, cls: set<nat>, visited0: set<nat>, visited: set<nat>, finished0: set<nat>,
                      start: nat, stack0: seq<nat>, stack: seq<nat>, next: seq<nat>)
    requires Searching(r, cls, visited0, finished0, start, stack0) && stack0 != []
    requires visited0 <= visited <= cls && Tracked(visited, finished0 + {stack0[|stack0| - 1]}, stack)
    requires forall v :: v in next ==> v in visited
    requires forall v :: (stack0[|stack0| - 1], v) in r ==> v in next
    ensures Searching(r, cls, visited, finished0 + {stack0[|stack0| - 1]}, start, stack)
  {
    PopTracked(visited0, finished0, stack0);
    hide Tracked;
  }

  lemma PopTracked(visited: set<nat>, finished: set<nat>, stack: seq<nat>)
    requires stack != [] && Tracked(visited, finished, stack)
    ensures Tracked(visited, finished + {stack[|stack| - 1]}, stack[..|stack| - 1])
    ensures stack[|stack| - 1] in visited
  {
    assert stack == stack[..|stack| - 1] + [stack[|stack| - 1]];
  }

  lemma PushTracked(visited: set<nat>, finished: set<nat>, stack: seq<nat>, v: nat)
    requires Tracked(visited, finished, stack)
    ensures Tracked(visited + {v}, finished, stack + [v])
  {
    assert v in stack + [v];
  }

  lemma LinksAreAdjacency(rows: seq<string>, t: Topology, u: nat, v: nat)
    requires ValidRows(rows) && TopologyOf(rows, t)
    ensures (u, v) in Links(t.edges) <==> AdjacentIds(rows, u, v)
  {
    assert (u, v) in Links(t.edges) <==> EdgeBetween(t.edges, u, v);
  }

  /** A grid path gives a path of node ids. */
  lemma {:induction false} GridPathReaches(rows: seq<string>, t: Topology, p: seq<Cell>, a: Cell, b: Cell)
    requires ValidRows(rows) && TopologyOf(rows, t) && GridPath(rows, p, a, b)
    ensures NodeId(|rows[0]|, a) >= 0 && NodeId(|rows[0]|, b) >= 0
    ensures Reach(Links(t.edges), NodeId(|rows[0]|, a), NodeId(|rows[0]|, b))
  {
    var width := |rows[0]|;
    NodeIdNonnegative(width, a);
    NodeIdNonnegative(width, b);
    if |p| == 1 {
      ReachSelf(Links(t.edges), NodeId(width, a));
    } else {
      var q := p[..|p| - 1];
      var c := q[|q| - 1];
      assert forall i :: 0 <= i < |q| ==> q[i] == p[i];
      assert GridPath(rows, q, a, c);
      GridPathReaches(rows, t, q, a, c);
      assert Adjacent4(p[|p| - 2], p[|p| - 2 + 1]);
      assert AdjacentIds(rows, NodeId(width, c), NodeId(width, b));
      LinksAreAdjacency(rows, t, NodeId(width, c), NodeId(width, b));
      ReachStep(Links(t.edges), NodeId(width, a), NodeId(width, c), NodeId(width, b));
    }
  }

  /** A path of node ids gives a grid path. */
  lemma {:induction false} ReachGivesGridPath(rows: seq<string>, t: Topology, p: seq<nat>, a: Cell, b: Cell)
    requires ValidRows(rows) && TopologyOf(rows, t) && IsOpen(rows, a) && IsOpen(rows, b)
    requires IsPath(Links(t.edges), p)
    requires p[0] == NodeId(|rows[0]|, a) && p[|p| - 1] == NodeId(|rows[0]|, b)
    ensures GridConnected(rows, a, b)
  {
    var width := |rows[0]|;
    if |p| == 1 {
      NodeIdInjective(width, a, b);
      assert GridPath(rows, [a], a, b);
    } else {
      var q := p[..|p| - 1];
      assert (p[|p| - 2], p[|p| - 2 + 1]) in Links(t.edges);
      LinksAreAdjacency(rows, t, p[|p| - 2], p[|p| - 1]);
      var c, d :| IsOpen(rows, c) && IsOpen(rows, d) && Adjacent4(c, d)
                  && NodeId(width, c) == p[|p| - 2] && NodeId(width, d) == p[|p| - 1];
      NodeIdInjective(width, d, b);
      ReachGivesGridPath(rows, t, q, a, c);
      var g :| GridPath(rows, g, a, c);
      assert GridPath(rows, g + [b], a, b);
    }
  }

  /** Reachability between node ids is exactly grid connectivity. */
  lemma ReachIffGridConnected(rows: seq<string>, t: Topology, a: Cell, b: Cell)
    requires ValidRows(rows) && TopologyOf(rows, t) && IsOpen(rows, a) && IsOpen(rows, b)
    ensures NodeId(|rows[0]|, a) >= 0 && NodeId(|rows[0]|, b) >= 0
    ensures Reach(Links(t.edges), NodeId(|rows[0]|, a), NodeId(|rows[0]|, b)) <==> GridConnected(rows, a, b)
  {
    NodeIdNonnegative(|rows[0]|, a);
    NodeIdNonnegative(|rows[0]|, b);
    var u, v := NodeId(|rows[0]|, a), NodeId(|rows[0]|, b);
    if Reach(Links(t.edges), u, v) {
      var p :| PathBetween(Links(t.edges), p, u, v);
      ReachGivesGridPath(rows, t, p, a, b);
    }
    if GridConnected(rows, a, b) {
      var p :| GridPath(rows, p, a, b);
      GridPathReaches(rows, t, p, a, b);
    }
  }

  lemma GridConnectedVia(rows: seq<string>, hub: Cell, a: Cell, b: Cell)
    requires ValidRows(rows) && GridConnected(rows, hub, a) && GridConnected(rows, hub, b)
    ensures GridConnected(rows, a, b)
  {
    var p :| GridPath(rows, p, hub, a);
    var q :| GridPath(rows, q, hub, b);
    var back := seq(|p|, i requires 0 <= i < |p| => p[|p| - 1 - i]);
    forall i | 0 <= i < |back| - 1 ensures Adjacent4(back[i], back[i + 1]) {
      assert Adjacent4(p[|p| - 2 - i], p[|p| - 2 - i + 1]);
    }
    var whole := back + q[1..];
    forall i | 0 <= i < |whole| - 1 ensures Adjacent4(whole[i], whole[i + 1]) {
      if i >= |p| - 1 {
        assert whole[i] == q[i - (|p| - 1)] && whole[i + 1] == q[i - (|p| - 1) + 1];
      }
    }
    assert GridPath(rows, whole, a, b);
  }

  function AsSet(s: seq<nat>): set<nat> { set u | u in s }

  lemma SetOfDistinct(s: seq<nat>)
    requires forall i, j :: 0 <= i < j < |s| ==> s[i] != s[j]
    ensures |AsSet(s)| == |s|
  {
    if s != [] {
      var n := |s| - 1;
      SetOfDistinct(s[..n]);
      assert s == s[..n] + [s[n]] && s[n] !in s[..n];
      assert AsSet(s) == AsSet(s[..n]) + {s[n]};
    }
  }

  lemma FullPart(a: set<nat>, b: set<nat>)
    requires a <= b
    ensures |a| == |b| <==> a == b
    ensures |a| <= |b|
  {
    assert b == a + (b - a);
  }

  /** The check accepts a maze exactly when every two open cells are joined by
      orthogonal steps through open cells. */
  method RequireConnected(rows: seq<string>, t: Topology, guardian: Cell, explorer: Cell, goal: Cell)
    returns (accepted: bool)
    requires ValidRows(rows) && TopologyOf(rows, t)
    requires IsOpen(rows, guardian) && IsOpen(rows, explorer) && IsOpen(rows, goal)
    ensures accepted <==> AllOpenConnected(rows)
  {
    var width := |rows[0]|;
    NodeIdNonnegative(width, guardian);
    NodeIdNonnegative(width, explorer);
    NodeIdNonnegative(width, goal);
    var ids: set<nat> := {NodeId(width, guardian), NodeId(width, explorer), NodeId(width, goal)};
    var start :| start in ids;
    ghost var hub := if start == NodeId(width, guardian) then guardian
                     else if start == NodeId(width, explorer) then explorer else goal;
    EndsAreNodes(rows, t);
    assert OpenId(rows, start);
    var visited := Visit(t, start);
    accepted := ids <= visited && |visited| == |t.nodes|;
    VisitedAllIff(rows, t, hub, visited);
    assert OpenId(rows, NodeId(width, guardian)) && OpenId(rows, NodeId(width, explorer))
        && OpenId(rows, NodeId(width, goal));
  }

  lemma EndsAreNodes(rows: seq<string>, t: Topology)
    requires ValidRows(rows) && TopologyOf(rows, t)
    ensures EndsInside(t)
  {
    forall e | e in t.edges ensures e.start in t.nodes && e.end in t.nodes {
      assert EdgeBetween(t.edges, e.start, e.end);
      assert AdjacentIds(rows, e.start, e.end);
      assert OpenId(rows, e.start) && OpenId(rows, e.end);
    }
  }

  lemma VisitedAllIff(rows: seq<string>, t: Topology, hub: Cell, visited: set<nat>)
    requires ValidRows(rows) && TopologyOf(rows, t) && IsOpen(rows, hub)
    requires NodeId(|rows[0]|, hub) >= 0
    requires forall v :: v in visited <==> Reach(Links(t.edges), NodeId(|rows[0]|, hub), v)
    requires forall v :: v in visited ==> v in t.nodes
    ensures |visited| == |t.nodes| <==> AllOpenConnected(rows)
    ensures |visited| == |t.nodes| ==> forall u :: u in t.nodes ==> u in visited
  {
    var all := AsSet(t.nodes);
    SetOfDistinct(t.nodes);
    FullPart(visited, all);
    if visited == all {
      forall a, b | IsOpen(rows, a) && IsOpen(rows, b) ensures GridConnected(rows, a, b) {
        assert OpenId(rows, NodeId(|rows[0]|, a)) && OpenId(rows, NodeId(|rows[0]|, b));
        ReachIffGridConnected(rows, t, hub, a);
        ReachIffGridConnected(rows, t, hub, b);
        GridConnectedVia(rows, hub, a, b);
      }
    }
    if AllOpenConnected(rows) {
      forall u | u in all ensures u in visited {
        assert OpenId(rows, u);
        var c :| IsOpen(rows, c) && NodeId(|rows[0]|, c) == u;
        ReachIffGridConnected(rows, t, hub, c);
      }
      assert visited == all;
    }
  }
}
