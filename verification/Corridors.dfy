/** Grid-to-graph extraction: tracing the corridors between node cells of an
    occupancy mask, given as the set of its free cells. */
module Corridors {
  import opened Arithmetic
  import opened Options

  datatype Cell = Cell(x: int, y: int)

  type Grid = set<Cell>

  // -------------------------------------------------------------- neighbours

  /** A step to one of the eight neighbours that does not cut a blocked corner. */
  predicate Legal(g: Grid, a: Cell, b: Cell) {
    && b in g && a != b
    && -1 <= b.x - a.x <= 1 && -1 <= b.y - a.y <= 1
    && (a.x != b.x && a.y != b.y ==> Cell(b.x, a.y) in g && Cell(a.x, b.y) in g)
  }

  const STEPS: seq<(int, int)> := [(-1, -1), (0, -1), (1, -1), (-1, 0), (1, 0), (-1, 1), (0, 1), (1, 1)]

  function Filtered(g: Grid, a: Cell, steps: seq<(int, int)>): seq<Cell> {
    if steps == [] then []
    else
      var b := Cell(a.x + steps[0].0, a.y + steps[0].1);
      (if Legal(g, a, b) then [b] else []) + Filtered(g, a, steps[1..])
  }

  lemma {:induction false} FilteredIs(g: Grid, a: Cell, steps: seq<(int, int)>)
    ensures forall b :: b in Filtered(g, a, steps) <==> Legal(g, a, b) && (b.x - a.x, b.y - a.y) in steps
  {
    hide Legal;
    if steps != [] {
      FilteredIs(g, a, steps[1..]);
      assert forall s :: s in steps <==> s == steps[0] || s in steps[1..];
    }
  }

  function ValidNeighbors(g: Grid, a: Cell): (r: seq<Cell>)
    ensures forall b :: b in r <==> Legal(g, a, b)
  {
    AllSteps();
    FilteredIs(g, a, STEPS);
    Filtered(g, a, STEPS)
  }

  lemma AllSteps()
    ensures forall dx, dy :: -1 <= dx <= 1 && -1 <= dy <= 1 && (dx != 0 || dy != 0) ==> (dx, dy) in STEPS
  {
    assert STEPS[0] == (-1, -1) && STEPS[1] == (0, -1) && STEPS[2] == (1, -1) && STEPS[3] == (-1, 0);
    assert STEPS[4] == (1, 0) && STEPS[5] == (-1, 1) && STEPS[6] == (0, 1) && STEPS[7] == (1, 1);
  }

  /** Between free cells a legal step can be walked back. */
  lemma LegalBothWays(g: Grid, a: Cell, b: Cell)
    requires a in g && Legal(g, a, b)
    ensures Legal(g, b, a)
  {
  }

  // ------------------------------------------------------------------- order

  /** Row-major order. */
  predicate RowMajor(a: Cell, b: Cell) { a.y < b.y || (a.y == b.y && a.x <= b.x) }

  function First(s: seq<Cell>): (c: Cell)
    requires s != []
    ensures c in s && forall b :: b in s ==> RowMajor(c, b)
  {
    if |s| == 1 then s[0]
    else
      var rest := First(s[1..]);
      assert forall b :: b in s <==> b == s[0] || b in s[1..];
      if RowMajor(s[0], rest) then s[0] else rest
  }

  function Without(s: seq<Cell>, c: Cell): (r: seq<Cell>)
    ensures forall b :: b in r <==> b in s && b != c
  {
    if s == [] then []
    else
      assert forall b :: b in s <==> b == s[0] || b in s[1..];
      (if s[0] == c then [] else [s[0]]) + Without(s[1..], c)
  }

  /** Where a corridor goes on from `current` when it came from `previous`. */
  function Onward(g: Grid, previous: Cell, current: Cell): Option<Cell> {
    var next := Without(ValidNeighbors(g, current), previous);
    if next == [] then None else Some(First(next))
  }

  /** Onward is the first legal neighbour in row-major order other than the one
      just left, if there is any. */
  lemma OnwardIsFirst(g: Grid, previous: Cell, current: Cell)
    ensures Onward(g, previous, current).None? <==> forall b :: Legal(g, current, b) ==> b == previous
    ensures Onward(g, previous, current).Some? ==>
              var n := Onward(g, previous, current).value;
              Legal(g, current, n) && n != previous
              && forall b :: Legal(g, current, b) && b != previous ==> RowMajor(n, b)
  {
    var next := Without(ValidNeighbors(g, current), previous);
    if next == [] {
      forall b | Legal(g, current, b) ensures b == previous {
        assert b in ValidNeighbors(g, current);
        assert b !in next;
      }
    } else {
      assert next[0] in next;
    }
  }

  // --------------------------------------------------------------- corridors

  /** An undirected step: its two cells in tuple order. */
  datatype Segment = Segment(low: Cell, high: Cell)

  function Step(a: Cell, b: Cell): Segment {
    if a.x < b.x || (a.x == b.x && a.y <= b.y) then Segment(a, b) else Segment(b, a)
  }

  lemma StepEnds(a: Cell, b: Cell, c: Cell, d: Cell)
    ensures Step(a, b) == Step(b, a)
    ensures Step(a, b) == Step(c, d) <==> (a == c && b == d) || (a == d && b == c)
  {
  }

  function StepAt(p: seq<Cell>, i: int): Segment
    requires 0 <= i < |p| - 1
  {
    Step(p[i], p[i + 1])
  }

  /** All undirected steps of a path. */
  function Steps(p: seq<Cell>): set<Segment> {
    set i | 0 <= i < |p| - 1 :: StepAt(p, i)
  }

  /** No undirected step occurs twice. */
  ghost predicate SimpleSteps(p: seq<Cell>) {
    forall i, j :: 0 <= i < j < |p| - 1 ==> StepAt(p, i) != StepAt(p, j)
  }

  predicate LegalAt(g: Grid, p: seq<Cell>, i: int)
    requires 0 <= i < |p| - 1
  {
    Legal(g, p[i], p[i + 1])
  }

  /** Strictly inside, the path passes a non-node cell to its onward cell. */
  predicate PassesAt(g: Grid, nodes: set<Cell>, p: seq<Cell>, i: int)
    requires 0 < i < |p| - 1
  {
    p[i] !in nodes && Onward(g, p[i - 1], p[i]) == Some(p[i + 1])
  }

  /** A traced walk: from a node cell, by legal steps, with no node strictly
      inside, each step inside taking the onward cell, no step twice. */
  ghost predicate Walk(g: Grid, nodes: set<Cell>, p: seq<Cell>) {
    && |p| >= 2 && p[0] in nodes && p[0] in g
    && (forall i :: 0 <= i < |p| - 1 ==> LegalAt(g, p, i))
    && (forall i :: 0 < i < |p| - 1 ==> PassesAt(g, nodes, p, i))
    && SimpleSteps(p)
  }

  ghost predicate Corridor(g: Grid, nodes: set<Cell>, p: seq<Cell>) {
    Walk(g, nodes, p) && p[|p| - 1] in nodes
  }

  lemma ExtendSteps(p: seq<Cell>, next: Cell)
    requires |p| >= 2
    ensures Steps(p + [next]) == Steps(p) + {Step(p[|p| - 1], next)}
    ensures forall i :: 0 <= i < |p| - 1 ==> StepAt(p + [next], i) == StepAt(p, i)
    ensures StepAt(p + [next], |p| - 1) == Step(p[|p| - 1], next)
  {
    var q, n := p + [next], |p| - 1;
    assert forall i :: 0 <= i < n ==> StepAt(q, i) == StepAt(p, i);
    assert StepAt(q, n) == Step(p[n], next);
    hide StepAt;
  }

  lemma ExtendWalk(g: Grid, nodes: set<Cell>, p: seq<Cell>, next: Cell)
    requires Walk(g, nodes, p) && p[|p| - 1] !in nodes
    requires Onward(g, p[|p| - 2], p[|p| - 1]) == Some(next)
    requires Step(p[|p| - 1], next) !in Steps(p)
    ensures Walk(g, nodes, p + [next])
    ensures Steps(p + [next]) == Steps(p) + {Step(p[|p| - 1], next)}
  {
    OnwardIsFirst(g, p[|p| - 2], p[|p| - 1]);
    ExtendSteps(p, next);
    hide Onward, Legal, Step, LegalAt, PassesAt, SimpleSteps;
    ExtendLegal(g, p, next);
    ExtendPasses(g, nodes, p, next);
    ExtendSimple(p, next);
  }

  lemma ExtendLegal(g: Grid, p: seq<Cell>, next: Cell)
    requires |p| >= 2 && Legal(g, p[|p| - 1], next)
    requires forall i :: 0 <= i < |p| - 1 ==> LegalAt(g, p, i)
    ensures forall i :: 0 <= i < |p| ==> LegalAt(g, p + [next], i)
  {
    hide Legal;
    var q, n := p + [next], |p| - 1;
    forall i | 0 <= i < |p| ensures LegalAt(g, q, i) {
      if i < n { assert LegalAt(g, p, i); }
    }
  }

  lemma ExtendPasses(g: Grid, nodes: set<Cell>, p: seq<Cell>, next: Cell)
    requires |p| >= 2 && p[|p| - 1] !in nodes && Onward(g, p[|p| - 2], p[|p| - 1]) == Some(next)
    requires forall i :: 0 < i < |p| - 1 ==> PassesAt(g, nodes, p, i)
    ensures forall i :: 0 < i < |p| ==> PassesAt(g, nodes, p + [next], i)
  {
    hide Onward;
    var q, n := p + [next], |p| - 1;
    forall i | 0 < i < |p| ensures PassesAt(g, nodes, q, i) {
      if i < n { assert PassesAt(g, nodes, p, i); }
    }
  }

  lemma ExtendSimple(p: seq<Cell>, next: Cell)
    requires |p| >= 2 && SimpleSteps(p) && Step(p[|p| - 1], next) !in Steps(p)
    ensures SimpleSteps(p + [next])
  {
    ExtendSteps(p, next);
    hide StepAt, Step;
    var q, n := p + [next], |p| - 1;
    forall i, j | 0 <= i < j < |q| - 1 ensures StepAt(q, i) != StepAt(q, j) {
      if j == n { assert StepAt(p, i) in Steps(p); }
    }
  }

  /** The ends of a path after one more cell. */
  lemma Snoc(p: seq<Cell>, next: Cell)
    requires |p| >= 2
    ensures var q := p + [next];
            |q| == |p| + 1 && q[0] == p[0] && q[1] == p[1] && q[|q| - 2] == p[|p| - 1] && q[|q| - 1] == next
  {
  }

  // ------------------------------------------------------------------- edges

  /** Position of a node cell in row-major order, counted from 1. */
  function NodeId(order: seq<Cell>, c: Cell): (id: nat)
    ensures c in order ==> 1 <= id <= |order| && order[id - 1] == c
  {
    if order == [] then 0
    else if order[0] == c then 1
    else 1 + NodeId(order[1..], c)
  }

  function Reversed(p: seq<Cell>): (r: seq<Cell>)
    ensures |r| == |p| && forall i :: 0 <= i < |p| ==> r[i] == p[|p| - 1 - i]
  {
    if p == [] then [] else Reversed(p[1..]) + [p[0]]
  }

  function AsSet(order: seq<Cell>): set<Cell> { set c | c in order }

  datatype Edge = Edge(id: nat, fromNode: nat, toNode: nat, path: seq<Cell>)

  /** The canonical edge of a corridor: smaller node id first. */
  function MakeEdge(order: seq<Cell>, id: nat, p: seq<Cell>): Edge
    requires p != []
  {
    var a, b := NodeId(order, p[0]), NodeId(order, p[|p| - 1]);
    if a <= b then Edge(id, a, b, p) else Edge(id, b, a, Reversed(p))
  }

  /** Edges and the corridors they were traced from, with distinct steps overall. */
  ghost predicate Traced(g: Grid, order: seq<Cell>, edges: seq<Edge>, corridors: seq<seq<Cell>>) {
    && |edges| == |corridors|
    && (forall e :: 0 <= e < |edges| ==>
          Corridor(g, AsSet(order), corridors[e]) && edges[e] == MakeEdge(order, e + 1, corridors[e]))
    && forall e, f :: 0 <= e < f < |edges| ==> Steps(corridors[e]) !! Steps(corridors[f])
  }

  // ------------------------------------------------------------ ordered trace

  /** Why a walk ends: a node, a dead end, or a next step that was taken by an
      earlier walk or by this one. */
  ghost predicate Stopped(g: Grid, nodes: set<Cell>, taken: set<Segment>, p: seq<Cell>)
    requires |p| >= 2
  {
    || p[|p| - 1] in nodes
    || Onward(g, p[|p| - 2], p[|p| - 1]).None?
    || Step(p[|p| - 1], Onward(g, p[|p| - 2], p[|p| - 1]).value) in taken + Steps(p)
  }

  /** A walk that follows earlier walks whose steps are `taken`. */
  ghost predicate NextWalk(g: Grid, nodes: set<Cell>, taken: set<Segment>, p: seq<Cell>) {
    Walk(g, nodes, p) && Steps(p) !! taken && Stopped(g, nodes, taken, p)
  }

  ghost function Taken(walks: seq<seq<Cell>>): set<Segment> {
    if walks == [] then {} else Taken(walks[..|walks| - 1]) + Steps(walks[|walks| - 1])
  }

  /** The walks after offering the steps `starts` in order: a step that is already
      taken is skipped, any other one starts the next walk. */
  ghost predicate Scanned(g: Grid, nodes: set<Cell>, starts: seq<(Cell, Cell)>, walks: seq<seq<Cell>>) {
    if starts == [] then walks == []
    else
      var n := |starts| - 1;
      || (Scanned(g, nodes, starts[..n], walks) && Step(starts[n].0, starts[n].1) in Taken(walks))
      || (walks != [] && var m := |walks| - 1;
          && Scanned(g, nodes, starts[..n], walks[..m]) && NextWalk(g, nodes, Taken(walks[..m]), walks[m])
          && walks[m][0] == starts[n].0 && walks[m][1] == starts[n].1)
  }

  function From(a: Cell, neighbors: seq<Cell>): seq<(Cell, Cell)> {
    if neighbors == [] then []
    else From(a, neighbors[..|neighbors| - 1]) + [(a, neighbors[|neighbors| - 1])]
  }

  /** The steps leaving node cells, node by node and neighbour by neighbour. */
  function Leaving(g: Grid, order: seq<Cell>): seq<(Cell, Cell)> {
    if order == [] then []
    else
      var last := order[|order| - 1];
      Leaving(g, order[..|order| - 1]) + From(last, ValidNeighbors(g, last))
  }

  ghost predicate IsTrace(g: Grid, order: seq<Cell>, walks: seq<seq<Cell>>) {
    Scanned(g, AsSet(order), Leaving(g, order), walks)
  }

  /** The walks that reached a node cell. */
  ghost function Arrivals(nodes: set<Cell>, walks: seq<seq<Cell>>): seq<seq<Cell>> {
    if walks == [] then []
    else
      var last := walks[|walks| - 1];
      Arrivals(nodes, walks[..|walks| - 1]) + (if last != [] && last[|last| - 1] in nodes then [last] else [])
  }

  ghost predicate MadeOf(order: seq<Cell>, edges: seq<Edge>, corridors: seq<seq<Cell>>) {
    |edges| == |corridors|
    && forall e :: 0 <= e < |edges| ==> corridors[e] != [] && edges[e] == MakeEdge(order, e + 1, corridors[e])
  }

  /** The edges of a grid: the walks of its trace that reach a node cell, in order. */
  ghost predicate CorridorGraph(g: Grid, order: seq<Cell>, edges: seq<Edge>) {
    && (forall c :: c in order ==> c in g)
    && exists walks :: IsTrace(g, order, walks) && MadeOf(order, edges, Arrivals(AsSet(order), walks))
  }

  /** Every walk follows the ones before it. */
  ghost predicate Successive(g: Grid, nodes: set<Cell>, walks: seq<seq<Cell>>) {
    forall k :: 0 <= k < |walks| ==> NextWalk(g, nodes, Taken(walks[..k]), walks[k])
  }

  lemma FirstUsed(p: seq<Cell>)
    requires |p| >= 2
    ensures Step(p[0], p[1]) in Steps(p)
  {
    assert StepAt(p, 0) == Step(p[0], p[1]);
  }

  lemma LastUsed(p: seq<Cell>)
    requires |p| >= 2
    ensures Step(p[|p| - 2], p[|p| - 1]) in Steps(p)
  {
    assert StepAt(p, |p| - 2) == Step(p[|p| - 2], p[|p| - 1]);
  }

  /** Every walk of a trace is judged against the walks before it. */
  lemma {:induction false} ScannedWalks(g: Grid, nodes: set<Cell>, starts: seq<(Cell, Cell)>, walks: seq<seq<Cell>>)
    requires Scanned(g, nodes, starts, walks)
    ensures Successive(g, nodes, walks)
    ensures forall s :: s in starts ==> Step(s.0, s.1) in Taken(walks)
    decreases |starts|
  {
    hide NextWalk, Step, Steps;
    if starts != [] {
      var n := |starts| - 1;
      assert starts == starts[..n] + [starts[n]];
      if Scanned(g, nodes, starts[..n], walks) && Step(starts[n].0, starts[n].1) in Taken(walks) {
        ScannedWalks(g, nodes, starts[..n], walks);
      } else {
        var m := |walks| - 1;
        ScannedWalks(g, nodes, starts[..n], walks[..m]);
        forall k | 0 <= k < |walks| ensures NextWalk(g, nodes, Taken(walks[..k]), walks[k]) {
          if k < m { assert walks[..m][..k] == walks[..k] && walks[..m][k] == walks[k]; }
        }
        WalkStarts(g, nodes, Taken(walks[..m]), walks[m]);
      }
    }
  }

  lemma WalkStarts(g: Grid, nodes: set<Cell>, taken: set<Segment>, p: seq<Cell>)
    requires NextWalk(g, nodes, taken, p)
    ensures |p| >= 2 && Step(p[0], p[1]) in Steps(p) && Step(p[0], p[1]) !in taken
  {
    FirstUsed(p);
    hide Step;
  }

  /** Walks that set off alike after the same earlier walks are the same walk. */
  lemma NextWalkUnique(g: Grid, nodes: set<Cell>, taken: set<Segment>, p: seq<Cell>, q: seq<Cell>)
    requires NextWalk(g, nodes, taken, p) && NextWalk(g, nodes, taken, q) && p[0] == q[0] && p[1] == q[1]
    ensures p == q
  {
    hide Step, Onward, Legal;
    if |p| <= |q| {
      WalkPrefix(g, nodes, taken, p, q);
    } else {
      WalkPrefix(g, nodes, taken, q, p);
    }
  }

  lemma WalkPrefix(g: Grid, nodes: set<Cell>, taken: set<Segment>, p: seq<Cell>, q: seq<Cell>)
    requires NextWalk(g, nodes, taken, p) && NextWalk(g, nodes, taken, q) && p[0] == q[0] && p[1] == q[1]
    requires |p| <= |q|
    ensures p == q
  {
    hide Step, Onward, Legal;
    SamePrefix(g, nodes, p, q, |p|);
    if |p| < |q| {
      assert PassesAt(g, nodes, q, |p| - 1);
      hide Steps, SimpleSteps;
      NextNotInPrefix(p, q);
      assert false;
    }
  }

  lemma NextNotInPrefix(p: seq<Cell>, q: seq<Cell>)
    requires 2 <= |p| < |q| && q[..|p|] == p && SimpleSteps(q)
    ensures StepAt(q, |p| - 1) in Steps(q) && StepAt(q, |p| - 1) !in Steps(p)
  {
    hide Step;
    forall i | 0 <= i < |p| - 1 ensures StepAt(p, i) == StepAt(q, i) {
      assert p[i] == q[..|p|][i] == q[i] && p[i + 1] == q[..|p|][i + 1] == q[i + 1];
    }
    hide StepAt;
  }

  lemma {:induction false} SamePrefix(g: Grid, nodes: set<Cell>, p: seq<Cell>, q: seq<Cell>, n: nat)
    requires Walk(g, nodes, p) && Walk(g, nodes, q) && p[0] == q[0] && p[1] == q[1]
    requires n <= |p| && n <= |q|
    ensures p[..n] == q[..n]
  {
    hide Onward, Legal, Step, SimpleSteps;
    if n > 2 {
      SamePrefix(g, nodes, p, q, n - 1);
      assert p[n - 2] == p[..n - 1][n - 2] == q[n - 2] && p[n - 3] == p[..n - 1][n - 3] == q[n - 3];
      assert PassesAt(g, nodes, p, n - 2) && PassesAt(g, nodes, q, n - 2);
      assert p[..n] == p[..n - 1] + [p[n - 1]] && q[..n] == q[..n - 1] + [q[n - 1]];
    }
  }

  /** A scan has one result. */
  lemma {:induction false} ScannedUnique(g: Grid, nodes: set<Cell>, starts: seq<(Cell, Cell)>,
                                         v: seq<seq<Cell>>, w: seq<seq<Cell>>)
    requires Scanned(g, nodes, starts, v) && Scanned(g, nodes, starts, w)
    ensures v == w
    decreases |starts|
  {
    hide NextWalk, Step, Steps;
    if starts != [] {
      var n := |starts| - 1;
      var init := starts[..n];
      if Scanned(g, nodes, init, v) && Scanned(g, nodes, init, w) {
        ScannedUnique(g, nodes, init, v, w);
      } else if Scanned(g, nodes, init, v) && Step(starts[n].0, starts[n].1) in Taken(v) {
        ScannedUnique(g, nodes, init, v, w[..|w| - 1]);
        WalkStarts(g, nodes, Taken(w[..|w| - 1]), w[|w| - 1]);
      } else if Scanned(g, nodes, init, w) && Step(starts[n].0, starts[n].1) in Taken(w) {
        ScannedUnique(g, nodes, init, w, v[..|v| - 1]);
        WalkStarts(g, nodes, Taken(v[..|v| - 1]), v[|v| - 1]);
      } else {
        ScannedUnique(g, nodes, init, v[..|v| - 1], w[..|w| - 1]);
        NextWalkUnique(g, nodes, Taken(v[..|v| - 1]), v[|v| - 1], w[|w| - 1]);
        assert v == v[..|v| - 1] + [v[|v| - 1]] && w == w[..|w| - 1] + [w[|w| - 1]];
      }
    }
  }

  /** The grid and its node cells determine the edges, ids and orientation included. */
  lemma GraphIsDetermined(g: Grid, order: seq<Cell>, edges: seq<Edge>, edges': seq<Edge>)
    requires CorridorGraph(g, order, edges) && CorridorGraph(g, order, edges')
    ensures edges == edges'
  {
    hide Scanned, MakeEdge, Arrivals;
    var v :| IsTrace(g, order, v) && MadeOf(order, edges, Arrivals(AsSet(order), v));
    var w :| IsTrace(g, order, w) && MadeOf(order, edges', Arrivals(AsSet(order), w));
    ScannedUnique(g, AsSet(order), Leaving(g, order), v, w);
  }

  ghost function AllPairs(g: Grid): set<Segment> { set a, b | a in g && b in g :: Step(a, b) }

  /** Walking on from a fresh first step until a node, a dead end or a step that
      was already visited. */
  method TraceOne(g: Grid, nodes: set<Cell>, start: Cell, neighbor: Cell, visited0: set<Segment>)
    returns (path: seq<Cell>, visited: set<Segment>)
    requires start in nodes && start in g && Legal(g, start, neighbor)
    requires Step(start, neighbor) !in visited0 && visited0 <= AllPairs(g)
    ensures |path| >= 2 && path[0] == start && path[1] == neighbor
    ensures NextWalk(g, nodes, visited0, path)
    ensures visited == visited0 + Steps(path) && visited <= AllPairs(g)
  {
    path := [start, neighbor];
    visited := visited0 + {Step(start, neighbor)};
    FirstStep(g, nodes, start, neighbor);
    hide Legal, Step, Steps, Walk, Onward, AllPairs;
    var previous, current := start, neighbor;
    while current !in nodes
      invariant |path| >= 2 && Walk(g, nodes, path) && path[0] == start && path[1] == neighbor
      invariant previous == path[|path| - 2] && current == path[|path| - 1] && current in g
      invariant visited == visited0 + Steps(path) && visited <= AllPairs(g)
      invariant Steps(path) !! visited0
      decreases AllPairs(g) - visited
    {
      var next := Onward(g, previous, current);
      if next == None {
        return;
      }
      var segment := Step(current, next.value);
      if segment in visited {
        return;
      }
      OnwardIsFirst(g, previous, current);
      ExtendWalk(g, nodes, path, next.value);
      LegalInGrid(g, current, next.value);
      Snoc(path, next.value);
      visited := visited + {segment};
      path := path + [next.value];
      previous, current := current, next.value;
    }
  }

  lemma LegalInGrid(g: Grid, a: Cell, b: Cell)
    requires a in g && Legal(g, a, b)
    ensures b in g && Step(a, b) in AllPairs(g)
  {
  }

  lemma FirstStep(g: Grid, nodes: set<Cell>, a: Cell, b: Cell)
    requires a in nodes && a in g && Legal(g, a, b)
    ensures Walk(g, nodes, [a, b]) && Steps([a, b]) == {Step(a, b)} && b in g && Step(a, b) in AllPairs(g)
  {
    var p := [a, b];
    assert StepAt(p, 0) == Step(a, b);
    LegalInGrid(g, a, b);
    hide Legal, Step;
  }

  /** Corridor tracing: the edges are exactly the walks of the trace that reach a
      node cell. */
  method TraceEdges(g: Grid, order: seq<Cell>) returns (edges: seq<Edge>)
    requires forall c :: c in order ==> c in g
    ensures CorridorGraph(g, order, edges)
  {
    var seen: set<Segment> := {};
    ghost var walks: seq<seq<Cell>> := [];
    edges := [];
    hide Legal, Step, Steps, NextWalk, Onward, AllPairs, Taken, From;
    assert Taken([]) == {} by { NothingTaken(); }
    for k := 0 to |order|
      invariant seen == Taken(walks) && seen <= AllPairs(g)
      invariant Scanned(g, AsSet(order), Leaving(g, order[..k]), walks)
      invariant MadeOf(order, edges, Arrivals(AsSet(order), walks))
    {
      assert order[..k + 1][..k] == order[..k];
      edges, seen, walks := TraceFrom(g, order, order[k], Leaving(g, order[..k]), edges, seen, walks);
    }
    assert order[..|order|] == order;
  }

  lemma NothingTaken()
    ensures Taken([]) == {}
  {
  }

  /** The walks leaving one node cell. */
  method TraceFrom(g: Grid, order: seq<Cell>, start: Cell, ghost before: seq<(Cell, Cell)>, edges0: seq<Edge>,
                   seen0: set<Segment>, ghost walks0: seq<seq<Cell>>)
    returns (edges: seq<Edge>, seen: set<Segment>, ghost walks: seq<seq<Cell>>)
    requires start in order && start in g && seen0 == Taken(walks0) <= AllPairs(g)
    requires Scanned(g, AsSet(order), before, walks0) && MadeOf(order, edges0, Arrivals(AsSet(order), walks0))
    ensures seen == Taken(walks) <= AllPairs(g)
    ensures Scanned(g, AsSet(order), before + From(start, ValidNeighbors(g, start)), walks)
    ensures MadeOf(order, edges, Arrivals(AsSet(order), walks))
  {
    hide Legal, Step, Steps, NextWalk, Onward, AllPairs, Taken, Scanned, Arrivals, MakeEdge, Walk, Stopped;
    var nodes := AsSet(order);
    edges, seen, walks := edges0, seen0, walks0;
    var neighbors := ValidNeighbors(g, start);
    assert before + From(start, neighbors[..0]) == before;
    for j := 0 to |neighbors|
      invariant seen == Taken(walks) && seen <= AllPairs(g)
      invariant Scanned(g, nodes, before + From(start, neighbors[..j]), walks)
      invariant MadeOf(order, edges, Arrivals(nodes, walks))
    {
      var neighbor := neighbors[j];
      assert neighbor in neighbors;
      ghost var offered := before + From(start, neighbors[..j]);
      assert neighbors[..j + 1][..j] == neighbors[..j];
      assert before + From(start, neighbors[..j + 1]) == offered + [(start, neighbor)];
      if Step(start, neighbor) in seen {
        ScanSkips(g, nodes, offered, walks, start, neighbor);
      } else {
        var path, now := TraceOne(g, nodes, start, neighbor, seen);
        ScanWalks(g, nodes, offered, walks, path);
        if path[|path| - 1] in nodes {
          edges := edges + [MakeEdge(order, |edges| + 1, path)];
        }
        walks := walks + [path];
        seen := now;
      }
    }
    assert neighbors[..|neighbors|] == neighbors;
  }

  lemma ScanSkips(g: Grid, nodes: set<Cell>, starts: seq<(Cell, Cell)>, walks: seq<seq<Cell>>, a: Cell, b: Cell)
    requires Scanned(g, nodes, starts, walks) && Step(a, b) in Taken(walks)
    ensures Scanned(g, nodes, starts + [(a, b)], walks)
  {
    assert (starts + [(a, b)])[..|starts|] == starts;
    hide Step, Taken, NextWalk;
  }

  lemma ScanWalks(g: Grid, nodes: set<Cell>, starts: seq<(Cell, Cell)>, walks: seq<seq<Cell>>, path: seq<Cell>)
    requires Scanned(g, nodes, starts, walks) && |path| >= 2 && NextWalk(g, nodes, Taken(walks), path)
    ensures Scanned(g, nodes, starts + [(path[0], path[1])], walks + [path])
    ensures Taken(walks + [path]) == Taken(walks) + Steps(path)
    ensures Arrivals(nodes, walks + [path]) == Arrivals(nodes, walks)
            + (if path[|path| - 1] in nodes then [path] else [])
  {
    assert (starts + [(path[0], path[1])])[..|starts|] == starts;
    assert (walks + [path])[..|walks|] == walks;
    hide Step, NextWalk, Steps;
  }

  // ------------------------------------------------------------ consequences

  lemma {:induction false} TakenGrows(walks: seq<seq<Cell>>, i: nat, k: nat)
    requires i <= k <= |walks|
    ensures Taken(walks[..i]) <= Taken(walks[..k])
    decreases k
  {
    hide Steps;
    if i < k {
      TakenGrows(walks, i, k - 1);
      assert walks[..k][..k - 1] == walks[..k - 1];
    }
  }

  /** Different walks of a trace share no step. */
  lemma WalksDisjoint(g: Grid, nodes: set<Cell>, walks: seq<seq<Cell>>, i: nat, k: nat)
    requires Successive(g, nodes, walks) && i < k < |walks|
    ensures Steps(walks[i]) !! Steps(walks[k])
  {
    hide Steps, Walk, Stopped;
    assert walks[..k][i] == walks[i];
    StepsTaken(walks[..k], i);
    assert NextWalk(g, nodes, Taken(walks[..k]), walks[k]);
  }

  lemma {:induction false} StepsTaken(walks: seq<seq<Cell>>, k: nat)
    requires k < |walks|
    ensures Steps(walks[k]) <= Taken(walks)
  {
    hide Steps;
    assert walks[..k + 1][..k] == walks[..k];
    TakenGrows(walks, k + 1, |walks|);
    assert walks[..|walks|] == walks;
  }

  lemma {:induction false} ArrivalsAre(nodes: set<Cell>, walks: seq<seq<Cell>>)
    ensures forall p :: p in Arrivals(nodes, walks) <==> p in walks && p != [] && p[|p| - 1] in nodes
  {
    if walks != [] {
      var m := |walks| - 1;
      ArrivalsAre(nodes, walks[..m]);
      assert walks == walks[..m] + [walks[m]];
    }
  }

  /** The arrivals of a trace share no step. */
  lemma {:induction false} ArrivalsDisjoint(g: Grid, nodes: set<Cell>, walks: seq<seq<Cell>>)
    requires Successive(g, nodes, walks)
    ensures forall e, f :: 0 <= e < f < |Arrivals(nodes, walks)| ==>
              Steps(Arrivals(nodes, walks)[e]) !! Steps(Arrivals(nodes, walks)[f])
    decreases |walks|
  {
    hide Steps, NextWalk;
    if walks != [] {
      var m := |walks| - 1;
      var init := walks[..m];
      forall k | 0 <= k < m ensures NextWalk(g, nodes, Taken(init[..k]), init[k]) {
        assert init[..k] == walks[..k];
      }
      ArrivalsDisjoint(g, nodes, init);
      ArrivalsAre(nodes, init);
      var before := Arrivals(nodes, init);
      forall e | 0 <= e < |before| ensures Steps(before[e]) !! Steps(walks[m]) {
        assert before[e] in init;
        var i :| 0 <= i < m && init[i] == before[e];
        WalksDisjoint(g, nodes, walks, i, m);
      }
    }
  }

  /** Every graph has a trace whose arrivals are its corridors. */
  lemma GraphIsTraced(g: Grid, order: seq<Cell>, edges: seq<Edge>, walks: seq<seq<Cell>>)
    requires IsTrace(g, order, walks) && MadeOf(order, edges, Arrivals(AsSet(order), walks))
    ensures Traced(g, order, edges, Arrivals(AsSet(order), walks))
  {
    hide Walk, Stopped, Steps, Arrivals, Scanned, MakeEdge, Taken;
    var nodes := AsSet(order);
    ScannedWalks(g, nodes, Leaving(g, order), walks);
    ArrivalsAre(nodes, walks);
    ArrivalsDisjoint(g, nodes, walks);
    var corridors := Arrivals(nodes, walks);
    forall e | 0 <= e < |corridors| ensures Corridor(g, nodes, corridors[e]) {
      assert corridors[e] in walks;
      var k :| 0 <= k < |walks| && walks[k] == corridors[e];
      assert NextWalk(g, nodes, Taken(walks[..k]), walks[k]);
    }
  }

  // ---------------------------------------------------------------- existence

  /** Every walk can be walked on until it stops. */
  lemma {:induction false} WalkExists(g: Grid, nodes: set<Cell>, taken: set<Segment>, p: seq<Cell>)
    returns (q: seq<Cell>)
    requires Walk(g, nodes, p) && Steps(p) !! taken && Steps(p) <= AllPairs(g) && |p| >= 2
    ensures NextWalk(g, nodes, taken, q) && |q| >= 2 && q[0] == p[0] && q[1] == p[1]
    decreases AllPairs(g) - Steps(p)
  {
    if Stopped(g, nodes, taken, p) {
      q := p;
    } else {
      var n := |p| - 1;
      var next := Onward(g, p[n - 1], p[n]).value;
      OnwardIsFirst(g, p[n - 1], p[n]);
      ExtendWalk(g, nodes, p, next);
      WalkInGrid(g, nodes, p, n);
      LegalInGrid(g, p[n], next);
      Snoc(p, next);
      hide Walk, Steps, Step, Onward, Legal, AllPairs;
      q := WalkExists(g, nodes, taken, p + [next]);
    }
  }

  lemma {:induction false} ScanExists(g: Grid, nodes: set<Cell>, starts: seq<(Cell, Cell)>)
    returns (walks: seq<seq<Cell>>)
    requires forall s :: s in starts ==> s.0 in nodes && s.0 in g && Legal(g, s.0, s.1)
    ensures Scanned(g, nodes, starts, walks)
    decreases |starts|
  {
    hide Legal, Walk, NextWalk, Step, Steps, AllPairs, Taken;
    if starts == [] {
      walks := [];
    } else {
      var n := |starts| - 1;
      var before := ScanExists(g, nodes, starts[..n]);
      assert starts == starts[..n] + [starts[n]];
      if Step(starts[n].0, starts[n].1) in Taken(before) {
        walks := before;
      } else {
        FirstStep(g, nodes, starts[n].0, starts[n].1);
        var walk := WalkExists(g, nodes, Taken(before), [starts[n].0, starts[n].1]);
        ScanWalks(g, nodes, starts[..n], before, walk);
        walks := before + [walk];
      }
    }
  }

  lemma {:induction false} LeavingAre(g: Grid, order: seq<Cell>)
    ensures forall s :: s in Leaving(g, order) ==> s.0 in order && Legal(g, s.0, s.1)
  {
    hide Legal;
    if order != [] {
      var last := order[|order| - 1];
      LeavingAre(g, order[..|order| - 1]);
      FromAre(last, ValidNeighbors(g, last));
    }
  }

  lemma {:induction false} FromAre(a: Cell, neighbors: seq<Cell>)
    ensures forall s :: s in From(a, neighbors) ==> s.0 == a && s.1 in neighbors
  {
    if neighbors != [] {
      var n := |neighbors| - 1;
      FromAre(a, neighbors[..n]);
      assert neighbors == neighbors[..n] + [neighbors[n]];
    }
  }

  lemma {:induction false} EdgesExist(order: seq<Cell>, corridors: seq<seq<Cell>>) returns (edges: seq<Edge>)
    requires forall p :: p in corridors ==> p != []
    ensures MadeOf(order, edges, corridors)
  {
    hide MakeEdge;
    edges := [];
    if corridors != [] {
      var n := |corridors| - 1;
      assert corridors == corridors[..n] + [corridors[n]];
      assert corridors[n] in corridors;
      forall p | p in corridors[..n] ensures p != [] { assert p in corridors; }
      var before := EdgesExist(order, corridors[..n]);
      edges := before + [MakeEdge(order, n + 1, corridors[n])];
    }
  }

  /** Every grid with given node cells has a graph. */
  lemma GraphExists(g: Grid, order: seq<Cell>) returns (edges: seq<Edge>)
    requires forall c :: c in order ==> c in g
    ensures CorridorGraph(g, order, edges)
  {
    LeavingAre(g, order);
    hide Legal, Leaving, MakeEdge, Scanned, Arrivals;
    var walks := ScanExists(g, AsSet(order), Leaving(g, order));
    var corridors := Arrivals(AsSet(order), walks);
    ArrivalsAre(AsSet(order), walks);
    edges := EdgesExist(order, corridors);
  }

  /** The edge at e takes exactly the given steps. */
  ghost predicate EdgeTakes(edges: seq<Edge>, e: int, steps: set<Segment>) {
    0 <= e < |edges| && Steps(edges[e].path) == steps
  }

  /** A walk of the trace became an edge exactly when it reached a node cell. */
  lemma WalkBecomesEdge(g: Grid, order: seq<Cell>, edges: seq<Edge>, walks: seq<seq<Cell>>, k: nat)
    requires IsTrace(g, order, walks) && MadeOf(order, edges, Arrivals(AsSet(order), walks)) && k < |walks|
    ensures |walks[k]| >= 2
    ensures (exists e :: EdgeTakes(edges, e, Steps(walks[k]))) <==> walks[k][|walks[k]| - 1] in order
  {
    hide Walk, Stopped, Steps, Arrivals, Scanned, MakeEdge, Taken, Corridor;
    var nodes := AsSet(order);
    var corridors := Arrivals(nodes, walks);
    ScannedWalks(g, nodes, Leaving(g, order), walks);
    ArrivalsAre(nodes, walks);
    GraphIsTraced(g, order, edges, walks);
    assert NextWalk(g, nodes, Taken(walks[..k]), walks[k]);
    WalkStarts(g, nodes, Taken(walks[..k]), walks[k]);
    if walks[k][|walks[k]| - 1] in order {
      assert walks[k] in walks;
      var e :| 0 <= e < |corridors| && corridors[e] == walks[k];
      EdgeKeepsSteps(order, e + 1, walks[k]);
      assert EdgeTakes(edges, e, Steps(walks[k]));
    }
    if e :| EdgeTakes(edges, e, Steps(walks[k])) {
      var i := EdgeIsWalk(g, order, edges, walks, e);
      if i < k { WalksDisjoint(g, nodes, walks, i, k); } else if k < i { WalksDisjoint(g, nodes, walks, k, i); }
      assert i == k;
    }
  }

  /** Every edge is one of the walks, up to orientation. */
  lemma EdgeIsWalk(g: Grid, order: seq<Cell>, edges: seq<Edge>, walks: seq<seq<Cell>>, e: int) returns (k: nat)
    requires IsTrace(g, order, walks) && MadeOf(order, edges, Arrivals(AsSet(order), walks)) && 0 <= e < |edges|
    ensures k < |walks| && |walks[k]| >= 2 && walks[k][|walks[k]| - 1] in order
    ensures edges[e] == MakeEdge(order, e + 1, walks[k]) && Steps(edges[e].path) == Steps(walks[k])
  {
    hide Walk, Stopped, Steps, Arrivals, Scanned, MakeEdge, Taken;
    var nodes := AsSet(order);
    var corridors := Arrivals(nodes, walks);
    ScannedWalks(g, nodes, Leaving(g, order), walks);
    ArrivalsAre(nodes, walks);
    assert corridors[e] in walks;
    k :| 0 <= k < |walks| && walks[k] == corridors[e];
    assert NextWalk(g, nodes, Taken(walks[..k]), walks[k]);
    WalkStarts(g, nodes, Taken(walks[..k]), walks[k]);
    EdgeKeepsSteps(order, e + 1, walks[k]);
  }

  lemma {:induction false} LeavingHas(g: Grid, order: seq<Cell>, a: Cell, b: Cell)
    requires a in order && Legal(g, a, b)
    ensures (a, b) in Leaving(g, order)
  {
    hide Legal;
    var last := order[|order| - 1];
    if a == last {
      assert b in ValidNeighbors(g, a);
      FromHas(a, ValidNeighbors(g, a), b);
    } else {
      assert order == order[..|order| - 1] + [last];
      LeavingHas(g, order[..|order| - 1], a, b);
    }
  }

  lemma {:induction false} FromHas(a: Cell, neighbors: seq<Cell>, b: Cell)
    requires b in neighbors
    ensures (a, b) in From(a, neighbors)
  {
    var n := |neighbors| - 1;
    assert neighbors == neighbors[..n] + [neighbors[n]];
    if b != neighbors[n] { FromHas(a, neighbors[..n], b); }
  }

  lemma {:induction false} TakenBy(walks: seq<seq<Cell>>, s: Segment) returns (k: nat)
    requires s in Taken(walks)
    ensures k < |walks| && s in Steps(walks[k])
  {
    hide Steps;
    var m := |walks| - 1;
    if s in Steps(walks[m]) { k := m; } else { k := TakenBy(walks[..m], s); }
  }

  /** Every legal step leaving a node cell is taken by exactly one walk of the trace.
      That walk is an edge if it reached a node cell; otherwise it met a dead end or
      a step taken before or by itself. */
  lemma LeavingStepIsAccounted(g: Grid, order: seq<Cell>, edges: seq<Edge>, a: Cell, b: Cell)
    returns (walks: seq<seq<Cell>>, k: nat)
    requires CorridorGraph(g, order, edges) && a in order && Legal(g, a, b)
    ensures IsTrace(g, order, walks) && k < |walks| && |walks[k]| >= 2
    ensures forall i :: 0 <= i < |walks| ==> (Step(a, b) in Steps(walks[i]) <==> i == k)
    ensures NextWalk(g, AsSet(order), Taken(walks[..k]), walks[k])
    ensures (exists e :: EdgeTakes(edges, e, Steps(walks[k]))) <==> walks[k][|walks[k]| - 1] in order
  {
    hide Legal, Step, Steps, MakeEdge, Walk, Stopped, Scanned, Arrivals, Leaving, Taken;
    walks :| IsTrace(g, order, walks) && MadeOf(order, edges, Arrivals(AsSet(order), walks));
    LeavingHas(g, order, a, b);
    ScannedWalks(g, AsSet(order), Leaving(g, order), walks);
    assert Step((a, b).0, (a, b).1) in Taken(walks);
    k := TakenBy(walks, Step(a, b));
    forall i | 0 <= i < |walks| && i != k ensures Step(a, b) !in Steps(walks[i]) {
      if i < k { WalksDisjoint(g, AsSet(order), walks, i, k); } else { WalksDisjoint(g, AsSet(order), walks, k, i); }
    }
    WalkBecomesEdge(g, order, edges, walks, k);
    hide EdgeTakes;
  }

  // ----------------------------------------------------------- completeness

  /** The walk sets off along p from one of its ends. */
  predicate SetsOff(p: seq<Cell>, w: seq<Cell>)
    requires |p| >= 2
  {
    && |w| >= 2
    && ((w[0] == p[0] && w[1] == p[1]) || (w[0] == p[|p| - 1] && w[1] == p[|p| - 2]))
  }

  lemma {:induction false} StartOnCorridor(g: Grid, nodes: set<Cell>, p: seq<Cell>, w: seq<Cell>)
    requires Corridor(g, nodes, p) && |w| >= 2 && w[0] in nodes && Step(w[0], w[1]) in Steps(p)
    ensures SetsOff(p, w)
  {
    var i :| 0 <= i < |p| - 1 && StepAt(p, i) == Step(w[0], w[1]);
    StepEnds(p[i], p[i + 1], w[0], w[1]);
    hide Step, Onward, Legal;
    if i > 0 { assert PassesAt(g, nodes, p, i); }
    if i + 1 < |p| - 1 { assert PassesAt(g, nodes, p, i + 1); }
  }

  /** A walk that sets off along a free two-way corridor is that corridor. */
  lemma {:induction false} FreeWalkIsCorridor(g: Grid, nodes: set<Cell>, p: seq<Cell>, taken: set<Segment>,
                                              w: seq<Cell>)
    requires Corridor(g, nodes, p) && Corridor(g, nodes, Reversed(p)) && Steps(p) !! taken
    requires NextWalk(g, nodes, taken, w) && SetsOff(p, w)
    ensures w == p || w == Reversed(p)
    ensures Steps(w) == Steps(p) && w[|w| - 1] in nodes
  {
    hide Step, Onward, Legal, Walk, Steps;
    var r := Reversed(p);
    CorridorLength(g, nodes, p);
    SameSteps(p);
    assert r[0] == p[|p| - 1] && r[1] == p[|p| - 2] && r[|r| - 1] == p[0];
    if w[0] == p[0] && w[1] == p[1] {
      NextWalkUnique(g, nodes, taken, w, p);
    } else {
      NextWalkUnique(g, nodes, taken, w, r);
    }
  }

  lemma {:induction false} ReversedTakes(p: seq<Cell>, q: seq<Cell>)
    requires |q| == |p| >= 2 && forall i :: 0 <= i < |p| - 1 ==> StepAt(q, i) == StepAt(p, |p| - 2 - i)
    ensures Steps(p) <= Steps(q)
  {
    hide StepAt;
    forall s | s in Steps(p) ensures s in Steps(q) {
      var i :| 0 <= i < |p| - 1 && StepAt(p, i) == s;
      assert StepAt(q, |p| - 2 - i) == s;
    }
  }

  lemma {:induction false} SameSteps(p: seq<Cell>)
    requires |p| >= 2
    ensures Steps(Reversed(p)) == Steps(p)
    ensures SimpleSteps(p) ==> SimpleSteps(Reversed(p))
  {
    var q, n := Reversed(p), |p| - 2;
    ReversedSteps(p, q);
    hide StepAt, Reversed;
    assert forall i :: 0 <= i < |q| - 1 ==> StepAt(p, i) == StepAt(q, n - i) by {
      forall i | 0 <= i < |q| - 1 ensures StepAt(p, i) == StepAt(q, n - i) {
        assert StepAt(q, n - i) == StepAt(p, n - (n - i));
      }
    }
    ReversedTakes(p, q);
    ReversedTakes(q, p);
    hide Steps;
    if SimpleSteps(p) {
      forall i, j | 0 <= i < j < |q| - 1 ensures StepAt(q, i) != StepAt(q, j) {
        assert StepAt(p, n - j) != StepAt(p, n - i);
      }
    }
  }

  /** Inside p nothing branches off: no cell has a third legal neighbour. */
  ghost predicate Unbranched(g: Grid, p: seq<Cell>) {
    forall i, x :: 0 < i < |p| - 1 && Legal(g, p[i], x) ==> x == p[i - 1] || x == p[i + 1]
  }

  lemma {:induction false} WalkInGrid(g: Grid, nodes: set<Cell>, p: seq<Cell>, i: nat)
    requires Walk(g, nodes, p) && i < |p|
    ensures p[i] in g
  {
    hide Onward;
    if i > 0 { assert LegalAt(g, p, i - 1); }
  }

  /** From its next cell, p[i] goes on to its previous one. */
  predicate TurnsBack(g: Grid, p: seq<Cell>, i: int)
    requires 0 < i < |p| - 1
  {
    Onward(g, p[i + 1], p[i]) == Some(p[i - 1])
  }

  lemma ReversedPasses(g: Grid, nodes: set<Cell>, p: seq<Cell>, i: int)
    requires 0 < i < |p| - 1 && PassesAt(g, nodes, p, i)
    ensures PassesAt(g, nodes, Reversed(p), |p| - 1 - i) <==> TurnsBack(g, p, i)
  {
    hide Onward;
  }

  lemma ReversedLegal(g: Grid, nodes: set<Cell>, p: seq<Cell>, i: int)
    requires Corridor(g, nodes, p) && 0 <= i < |p| - 1
    ensures LegalAt(g, Reversed(p), i)
  {
    hide SimpleSteps, Onward, Legal;
    var j := |p| - 2 - i;
    assert LegalAt(g, p, j);
    WalkInGrid(g, nodes, p, j);
    LegalBothWays(g, p[j], p[j + 1]);
  }

  lemma {:induction false} ReversedEnds(g: Grid, nodes: set<Cell>, p: seq<Cell>)
    requires Corridor(g, nodes, p)
    ensures var q := Reversed(p);
            |q| == |p| >= 2 && q[0] in nodes && q[0] in g && q[|q| - 1] in nodes && SimpleSteps(q)
    ensures forall i :: 0 <= i < |p| - 1 ==> LegalAt(g, Reversed(p), i)
    ensures forall i :: 0 < i < |p| - 1 ==> PassesAt(g, nodes, p, i)
  {
    SameSteps(p);
    WalkInGrid(g, nodes, p, |p| - 1);
    hide SimpleSteps, LegalAt, PassesAt;
    forall i | 0 <= i < |p| - 1 ensures LegalAt(g, Reversed(p), i) { ReversedLegal(g, nodes, p, i); }
  }

  /** A corridor can be walked both ways exactly when every inner cell turns back. */
  lemma {:induction false} TwoWayIffTurnsBack(g: Grid, nodes: set<Cell>, p: seq<Cell>)
    requires Corridor(g, nodes, p)
    ensures Corridor(g, nodes, Reversed(p)) <==> forall i :: 0 < i < |p| - 1 ==> TurnsBack(g, p, i)
  {
    var q, n := Reversed(p), |p| - 1;
    ReversedEnds(g, nodes, p);
    hide Reversed, SimpleSteps, LegalAt, PassesAt, TurnsBack;
    forall i | 0 < i < n ensures PassesAt(g, nodes, q, n - i) <==> TurnsBack(g, p, i) {
      ReversedPasses(g, nodes, p, i);
    }
    if forall i :: 0 < i < n ==> TurnsBack(g, p, i) {
      forall i | 0 < i < n ensures PassesAt(g, nodes, q, i) { assert TurnsBack(g, p, n - i); }
    } else {
      var i :| 0 < i < n && !TurnsBack(g, p, i);
      assert !PassesAt(g, nodes, q, n - i);
    }
  }

  /** An unbranched corridor can be walked both ways. */
  lemma UnbranchedIsTwoWay(g: Grid, nodes: set<Cell>, p: seq<Cell>)
    requires Corridor(g, nodes, p) && Unbranched(g, p)
    ensures Corridor(g, nodes, Reversed(p))
  {
    forall i | 0 < i < |p| - 1 ensures TurnsBack(g, p, i) {
      UnbranchedTurnsBack(g, nodes, p, i);
    }
    hide Onward, Unbranched, Walk;
    TwoWayIffTurnsBack(g, nodes, p);
  }

  lemma UnbranchedTurnsBack(g: Grid, nodes: set<Cell>, p: seq<Cell>, i: int)
    requires Corridor(g, nodes, p) && Unbranched(g, p) && 0 < i < |p| - 1
    ensures p[i] !in nodes && Onward(g, p[i + 1], p[i]) == Some(p[i - 1])
  {
    assert PassesAt(g, nodes, p, i) && LegalAt(g, p, i - 1);
    WalkInGrid(g, nodes, p, i - 1);
    LegalBothWays(g, p[i - 1], p[i]);
    OnwardIsFirst(g, p[i - 1], p[i]);
    OnwardIsFirst(g, p[i + 1], p[i]);
    hide Legal, Onward;
  }

  /** A walk that touches an unbranched corridor entered it at an end. */
  lemma {:induction false} EntersAtEnd(g: Grid, nodes: set<Cell>, p: seq<Cell>, w: seq<Cell>, j: nat)
    requires Corridor(g, nodes, p) && Unbranched(g, p) && Walk(g, nodes, w)
    requires j < |w| - 1 && StepAt(w, j) in Steps(p)
    ensures Step(w[0], w[1]) in Steps(p)
  {
    if j > 0 {
      var i :| 0 <= i < |p| - 1 && StepAt(p, i) == StepAt(w, j);
      StepEnds(p[i], p[i + 1], w[j], w[j + 1]);
      assert PassesAt(g, nodes, w, j) && LegalAt(g, w, j - 1);
      WalkInGrid(g, nodes, w, j - 1);
      LegalBothWays(g, w[j - 1], w[j]);
      OnwardIsFirst(g, w[j - 1], w[j]);
      hide Legal, Onward, Step, SimpleSteps, LegalAt;
      if w[j] == p[i] && w[j + 1] == p[i + 1] {
        assert w[j - 1] == p[i - 1];
        StepEnds(w[j - 1], w[j], p[i - 1], p[i]);
        assert StepAt(w, j - 1) == StepAt(p, i - 1);
      } else {
        assert w[j - 1] == p[i + 2];
        StepEnds(w[j - 1], w[j], p[i + 1], p[i + 2]);
        assert StepAt(w, j - 1) == StepAt(p, i + 1);
      }
      EntersAtEnd(g, nodes, p, w, j - 1);
    }
  }

  lemma {:induction false} FirstTouch(walks: seq<seq<Cell>>, steps: set<Segment>) returns (k: nat)
    requires !(steps !! Taken(walks))
    ensures k < |walks| && steps !! Taken(walks[..k]) && !(steps !! Steps(walks[k]))
  {
    hide Steps;
    var m := |walks| - 1;
    if steps !! Taken(walks[..m]) {
      k := m;
    } else {
      k := FirstTouch(walks[..m], steps);
      assert walks[..m][..k] == walks[..k];
    }
  }

  /** A two-way corridor along which the first walk touching it sets off is exactly
      one edge. */
  lemma {:induction false} FirstWalkIsEdge(g: Grid, order: seq<Cell>, edges: seq<Edge>, walks: seq<seq<Cell>>,
                                           p: seq<Cell>, k: nat)
    returns (e: nat)
    requires IsTrace(g, order, walks) && MadeOf(order, edges, Arrivals(AsSet(order), walks)) && k < |walks|
    requires Corridor(g, AsSet(order), p) && Corridor(g, AsSet(order), Reversed(p))
    requires SetsOff(p, walks[k]) && Steps(p) !! Taken(walks[..k])
    ensures e < |edges| && (edges[e].path == p || edges[e].path == Reversed(p))
    ensures forall f :: 0 <= f < |edges| && f != e ==> Steps(edges[f].path) !! Steps(p)
  {
    hide Stopped, Arrivals, Scanned, MakeEdge, Taken, Step, Leaving, SetsOff, Reversed, Legal, Steps;
    var nodes, w := AsSet(order), walks[k];
    ScannedWalks(g, nodes, Leaving(g, order), walks);
    assert NextWalk(g, nodes, Taken(walks[..k]), w);
    FreeWalkIsCorridor(g, nodes, p, Taken(walks[..k]), w);
    hide Walk;
    WalkBecomesEdge(g, order, edges, walks, k);
    e :| EdgeTakes(edges, e, Steps(w));
    var i := EdgeIsWalk(g, order, edges, walks, e);
    SameWalk(g, nodes, walks, i, k);
    CorridorLength(g, nodes, p);
    EdgePath(order, e + 1, w, p);
    GraphIsTraced(g, order, edges, walks);
    EdgesDisjoint(g, order, edges, Arrivals(nodes, walks));
  }

  /** The first walk of a trace that takes a step of p. */
  lemma FirstToucher(g: Grid, order: seq<Cell>, walks: seq<seq<Cell>>, p: seq<Cell>) returns (k: nat, j: nat)
    requires IsTrace(g, order, walks) && Corridor(g, AsSet(order), p)
    ensures k < |walks| && Steps(p) !! Taken(walks[..k]) && NextWalk(g, AsSet(order), Taken(walks[..k]), walks[k])
    ensures j < |walks[k]| - 1 && StepAt(walks[k], j) in Steps(p)
  {
    hide Stopped, Scanned, Taken, Step, Leaving, Legal, Steps;
    ScannedWalks(g, AsSet(order), Leaving(g, order), walks);
    assert LegalAt(g, p, 0);
    LeavingHas(g, order, p[0], p[1]);
    assert Step((p[0], p[1]).0, (p[0], p[1]).1) in Taken(walks);
    FirstUsed(p);
    k := FirstTouch(walks, Steps(p));
    j := SharedStep(p, walks[k]);
  }

  /** Completeness: every corridor between node cells in which nothing branches off
      is exactly one edge, and no other edge takes any of its steps. */
  lemma CorridorIsOneEdge(g: Grid, order: seq<Cell>, edges: seq<Edge>, p: seq<Cell>) returns (e: nat)
    requires CorridorGraph(g, order, edges) && Corridor(g, AsSet(order), p) && Unbranched(g, p)
    ensures e < |edges| && (edges[e].path == p || edges[e].path == Reversed(p))
    ensures forall f :: 0 <= f < |edges| && f != e ==> Steps(edges[f].path) !! Steps(p)
  {
    hide Stopped, Arrivals, MakeEdge, Taken, Step, Unbranched, SetsOff, Reversed, Legal, Steps, IsTrace;
    var walks :| IsTrace(g, order, walks) && MadeOf(order, edges, Arrivals(AsSet(order), walks));
    var k, j := FirstToucher(g, order, walks, p);
    EntersAtEnd(g, AsSet(order), p, walks[k], j);
    StartOnCorridor(g, AsSet(order), p, walks[k]);
    UnbranchedIsTwoWay(g, AsSet(order), p);
    e := FirstWalkIsEdge(g, order, edges, walks, p, k);
  }

  lemma SharedStep(p: seq<Cell>, w: seq<Cell>) returns (j: nat)
    requires !(Steps(p) !! Steps(w))
    ensures j < |w| - 1 && StepAt(w, j) in Steps(p)
  {
    var s :| s in Steps(p) && s in Steps(w);
    j :| 0 <= j < |w| - 1 && StepAt(w, j) == s;
  }

  lemma SameWalk(g: Grid, nodes: set<Cell>, walks: seq<seq<Cell>>, i: nat, k: nat)
    requires Successive(g, nodes, walks) && i < |walks| && k < |walks| && Steps(walks[i]) == Steps(walks[k])
    ensures i == k
  {
    hide Steps, Walk, Stopped, Taken;
    assert NextWalk(g, nodes, Taken(walks[..k]), walks[k]);
    WalkStarts(g, nodes, Taken(walks[..k]), walks[k]);
    if i < k { WalksDisjoint(g, nodes, walks, i, k); }
    if k < i { WalksDisjoint(g, nodes, walks, k, i); }
  }

  lemma EdgePath(order: seq<Cell>, id: nat, w: seq<Cell>, p: seq<Cell>)
    requires |p| >= 2 && (w == p || w == Reversed(p))
    ensures MakeEdge(order, id, w).path == p || MakeEdge(order, id, w).path == Reversed(p)
  {
    assert Reversed(Reversed(p)) == p;
  }

  /** Adjacent node cells are joined by exactly one direct edge. */
  lemma AdjacentNodesGetOneEdge(g: Grid, order: seq<Cell>, edges: seq<Edge>, a: Cell, b: Cell) returns (e: nat)
    requires CorridorGraph(g, order, edges) && a in order && b in order && Legal(g, a, b)
    ensures e < |edges| && (edges[e].path == [a, b] || edges[e].path == [b, a])
    ensures forall f :: 0 <= f < |edges| && f != e ==> Step(a, b) !in Steps(edges[f].path)
  {
    FirstStep(g, AsSet(order), a, b);
    hide Walk, Steps, Legal, Step, CorridorGraph;
    e := CorridorIsOneEdge(g, order, edges, [a, b]);
    assert Reversed([a, b]) == [b, a];
  }

  lemma CorridorLength(g: Grid, nodes: set<Cell>, p: seq<Cell>)
    requires Corridor(g, nodes, p)
    ensures |p| >= 2 && SimpleSteps(p) && p[0] in nodes && p[|p| - 1] in nodes
  {
  }

  lemma EdgesDisjoint(g: Grid, order: seq<Cell>, edges: seq<Edge>, corridors: seq<seq<Cell>>)
    requires Traced(g, order, edges, corridors)
    ensures forall e, f :: 0 <= e < f < |edges| ==> Steps(edges[e].path) !! Steps(edges[f].path)
  {
    hide Steps, Corridor, MakeEdge;
    forall e, f | 0 <= e < f < |edges| ensures Steps(edges[e].path) !! Steps(edges[f].path) {
      CorridorLength(g, AsSet(order), corridors[e]);
      CorridorLength(g, AsSet(order), corridors[f]);
      EdgeKeepsSteps(order, e + 1, corridors[e]);
      EdgeKeepsSteps(order, f + 1, corridors[f]);
    }
  }

  lemma ReversedSteps(p: seq<Cell>, q: seq<Cell>)
    requires |p| >= 2 && q == Reversed(p)
    ensures forall i :: 0 <= i < |p| - 1 ==> StepAt(q, i) == StepAt(p, |p| - 2 - i)
  {
    forall i | 0 <= i < |p| - 1 ensures StepAt(q, i) == StepAt(p, |p| - 2 - i) {
      StepEnds(q[i], q[i + 1], q[i + 1], q[i]);
    }
  }

  /** Orientation does not change which steps an edge uses. */
  lemma EdgeKeepsSteps(order: seq<Cell>, id: nat, p: seq<Cell>)
    requires |p| >= 2
    ensures var q := MakeEdge(order, id, p).path;
            && Steps(q) == Steps(p) && |q| == |p|
            && (|p| == 2 ==> StepAt(q, 0) == StepAt(p, 0))
            && (SimpleSteps(p) ==> SimpleSteps(q))
  {
    var q := MakeEdge(order, id, p).path;
    if q != p {
      ReversedSteps(p, q);
      SameSteps(p);
      hide StepAt, Steps, SimpleSteps;
    }
  }

  /** The graph validation accepts every traced graph: unique ids, existing
      endpoints in canonical order, and paths that really go somewhere, with no
      node strictly inside and no step used twice. */
  lemma TracedGraphIsValid(g: Grid, order: seq<Cell>, edges: seq<Edge>, corridors: seq<seq<Cell>>, e: nat)
    requires Traced(g, order, edges, corridors) && e < |edges|
    ensures edges[e].id == e + 1
    ensures 1 <= edges[e].fromNode <= edges[e].toNode <= |order|
    ensures |edges[e].path| >= 2 && edges[e].path[0] == order[edges[e].fromNode - 1]
    ensures edges[e].path[|edges[e].path| - 1] == order[edges[e].toNode - 1]
    ensures forall i :: 0 <= i < |edges[e].path| - 1 ==> Moves(edges[e].path, i)
    ensures forall i :: 0 < i < |edges[e].path| - 1 ==> edges[e].path[i] !in order
    ensures SimpleSteps(edges[e].path)
  {
    var p := corridors[e];
    CorridorLength(g, AsSet(order), p);
    EdgeKeepsSteps(order, e + 1, p);
    hide SimpleSteps, Steps, Legal, Onward, Step, StepAt;
    var q := edges[e].path;
    forall i | 0 <= i < |q| - 1 ensures Moves(q, i) {
      assert LegalAt(g, p, i) && LegalAt(g, p, |p| - 2 - i);
      LegalMoves(g, p[i], p[i + 1]);
      LegalMoves(g, p[|p| - 2 - i], p[|p| - 2 - i + 1]);
    }
    forall i | 0 < i < |q| - 1 ensures q[i] !in order {
      assert PassesAt(g, AsSet(order), p, i) && PassesAt(g, AsSet(order), p, |p| - 1 - i);
    }
  }

  predicate Moves(p: seq<Cell>, i: int)
    requires 0 <= i < |p| - 1
  {
    p[i] != p[i + 1]
  }

  lemma LegalMoves(g: Grid, a: Cell, b: Cell)
    requires Legal(g, a, b)
    ensures a != b
  {
  }

  // ------------------------------------------------------------- validation

  function Across(a: Cell, b: Cell, resolution: real): real { (b.x - a.x) as real * resolution }

  function Down(a: Cell, b: Cell, resolution: real): real { (b.y - a.y) as real * resolution }

  /** Distance of two cell centres. */
  function Leg(a: Cell, b: Cell, resolution: real, h: (real, real) -> real): real {
    h(Across(a, b, resolution), Down(a, b, resolution))
  }

  /** Metric length of a path through cell centres. */
  function Length(p: seq<Cell>, resolution: real, h: (real, real) -> real): real {
    if |p| < 2 then 0.0 else Leg(p[0], p[1], resolution, h) + Length(p[1..], resolution, h)
  }

  function MinClearance(p: seq<Cell>, clearance: Cell -> real): real
    requires p != []
  {
    if |p| == 1 then clearance(p[0])
    else var rest := MinClearance(p[1..], clearance); if clearance(p[0]) <= rest then clearance(p[0]) else rest
  }

  /** The length of one step is the distance of the two cell centres. */
  lemma StepLength(a: Cell, b: Cell, resolution: real, h: (real, real) -> real)
    requires IsHypot(h)
    ensures var x := b.x as real * resolution - a.x as real * resolution;
            var y := b.y as real * resolution - a.y as real * resolution;
            var length := Length([a, b], resolution, h);
            length >= 0.0 && length * length == x * x + y * y
  {
    assert [a, b][1..] == [b];
    assert Across(a, b, resolution) == b.x as real * resolution - a.x as real * resolution;
    assert Down(a, b, resolution) == b.y as real * resolution - a.y as real * resolution;
    assert Length([a, b], resolution, h) == Leg(a, b, resolution, h);
  }

  /** Lengths of paths that meet add up. */
  lemma {:induction false} LengthAdds(p: seq<Cell>, q: seq<Cell>, resolution: real, h: (real, real) -> real)
    requires p != [] && q != [] && p[|p| - 1] == q[0]
    ensures Length(p + q[1..], resolution, h) == Length(p, resolution, h) + Length(q, resolution, h)
  {
    hide Leg;
    if |p| == 1 {
      assert p + q[1..] == q;
    } else {
      LengthAdds(p[1..], q, resolution, h);
      assert (p + q[1..])[1..] == p[1..] + q[1..];
      assert (p + q[1..])[1] == p[1];
    }
  }

  lemma LegBothWays(a: Cell, b: Cell, resolution: real, h: (real, real) -> real)
    requires IsHypot(h)
    ensures Leg(a, b, resolution, h) == Leg(b, a, resolution, h)
  {
    var x, y := Across(a, b, resolution), Down(a, b, resolution);
    var u, v := Across(b, a, resolution), Down(b, a, resolution);
    assert u == -x && v == -y;
    assert u * u == x * x && v * v == y * y;
    assert h(u, v) * h(u, v) == h(x, y) * h(x, y) && h(u, v) >= 0.0 && h(x, y) >= 0.0;
    SquareReflects(h(u, v), h(x, y));
    SquareReflects(h(x, y), h(u, v));
  }

  /** So an edge has the same length either way. */
  lemma {:induction false} LengthBothWays(p: seq<Cell>, resolution: real, h: (real, real) -> real)
    requires IsHypot(h)
    ensures Length(Reversed(p), resolution, h) == Length(p, resolution, h)
  {
    if |p| >= 2 {
      var back := Reversed(p[1..]);
      LengthBothWays(p[1..], resolution, h);
      LegBothWays(p[0], p[1], resolution, h);
      assert [p[1], p[0]][1..] == [p[0]];
      assert back + [p[1], p[0]][1..] == Reversed(p) && back[|back| - 1] == p[1];
      hide Leg, IsHypot;
      LengthAdds(back, [p[1], p[0]], resolution, h);
      assert Length([p[1], p[0]], resolution, h) == Leg(p[1], p[0], resolution, h) + Length([p[0]], resolution, h);
    }
  }

  /** The least clearance on a path is that of one of its cells. */
  lemma {:induction false} ClearanceIsLeast(p: seq<Cell>, clearance: Cell -> real)
    requires p != []
    ensures exists c :: c in p && clearance(c) == MinClearance(p, clearance)
    ensures forall c :: c in p ==> MinClearance(p, clearance) <= clearance(c)
  {
    assert p[0] in p;
    if |p| > 1 {
      ClearanceIsLeast(p[1..], clearance);
      assert forall c :: c in p <==> c == p[0] || c in p[1..];
      var c :| c in p[1..] && clearance(c) == MinClearance(p[1..], clearance);
    }
  }

  /** What graph construction and validation check of the edges, `count` nodes
      being numbered from 1. */
  predicate Accepted(edges: seq<Edge>, count: nat, resolution: real, h: (real, real) -> real, clearance: Cell -> real) {
    && (forall e, f :: 0 <= e < f < |edges| ==> edges[e].id != edges[f].id)
    && forall e :: 0 <= e < |edges| ==> AcceptedEdge(edges[e], count, resolution, h, clearance)
  }

  predicate AcceptedEdge(e: Edge, count: nat, resolution: real, h: (real, real) -> real, clearance: Cell -> real) {
    && |e.path| >= 2 && 1 <= e.fromNode <= count && 1 <= e.toNode <= count
    && Length(e.path, resolution, h) > 0.0 && MinClearance(e.path, clearance) >= 0.0 && e.fromNode <= e.toNode
  }

  lemma {:induction false} LengthPositive(p: seq<Cell>, resolution: real, h: (real, real) -> real)
    requires IsHypot(h) && resolution > 0.0
    ensures Length(p, resolution, h) >= 0.0
    ensures |p| >= 2 && p[0] != p[1] ==> Length(p, resolution, h) > 0.0
  {
    if |p| >= 2 {
      LengthPositive(p[1..], resolution, h);
      var x, y := Across(p[0], p[1], resolution), Down(p[0], p[1], resolution);
      ScaledNonzero(p[1].x - p[0].x, resolution);
      ScaledNonzero(p[1].y - p[0].y, resolution);
      assert Leg(p[0], p[1], resolution, h) == h(x, y);
      if p[0] != p[1] { StepPositive(x, y, h(x, y)); }
    }
  }

  lemma StepPositive(x: real, y: real, length: real)
    requires (x != 0.0 || y != 0.0) && length >= 0.0 && length * length == x * x + y * y
    ensures length > 0.0
  {
    assert Times(length, length) == Times(x, x) + Times(y, y);
    SquareSign(x);
    SquareSign(y);
    SquareSign(length);
    hide Times;
  }

  lemma ScaledNonzero(d: int, resolution: real)
    requires resolution > 0.0
    ensures d as real * resolution == 0.0 <==> d == 0
  {
  }

  lemma {:induction false} ClearanceNonnegative(p: seq<Cell>, clearance: Cell -> real)
    requires p != [] && forall c :: clearance(c) >= 0.0
    ensures MinClearance(p, clearance) >= 0.0
  {
    if |p| > 1 { ClearanceNonnegative(p[1..], clearance); }
  }

  /** Graph validation accepts every traced graph. */
  lemma TracedGraphIsAccepted(g: Grid, order: seq<Cell>, edges: seq<Edge>,
                              resolution: real, h: (real, real) -> real, clearance: Cell -> real)
    requires CorridorGraph(g, order, edges)
    requires IsHypot(h) && resolution > 0.0 && forall c :: clearance(c) >= 0.0
    ensures Accepted(edges, |order|, resolution, h, clearance)
  {
    hide Traced, IsHypot, SimpleSteps, Length, MinClearance, IsTrace, MadeOf;
    var walks :| IsTrace(g, order, walks) && MadeOf(order, edges, Arrivals(AsSet(order), walks));
    GraphIsTraced(g, order, edges, walks);
    var corridors := Arrivals(AsSet(order), walks);
    forall e: nat | e < |edges|
      ensures edges[e].id == e + 1 && AcceptedEdge(edges[e], |order|, resolution, h, clearance)
    {
      TracedGraphIsValid(g, order, edges, corridors, e);
      assert Moves(edges[e].path, 0);
      LengthPositive(edges[e].path, resolution, h);
      ClearanceNonnegative(edges[e].path, clearance);
    }
  }
}
