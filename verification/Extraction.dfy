/** Node extraction from an occupancy grid, and what corridor tracing makes of the
    nodes it finds. */
module Extraction {
  import opened Corridors
  import opened Options

  // -------------------------------------------------------------- node cells

  datatype NodeKind = Frontier | DeadEnd | Junction | Anchor

  function Free(g: Grid, x: int, y: int): nat { if Cell(x, y) in g then 1 else 0 }

  /** Number of free orthogonal neighbours. */
  function Degree(g: Grid, c: Cell): nat {
    Free(g, c.x - 1, c.y) + Free(g, c.x + 1, c.y) + Free(g, c.x, c.y - 1) + Free(g, c.x, c.y + 1)
  }

  /** One of the eight cells around c is unknown. */
  predicate AtFrontier(unknown: set<Cell>, c: Cell) {
    exists s :: s in STEPS && Cell(c.x + s.0, c.y + s.1) in unknown
  }

  /** The degree event of a free cell, if there is one. */
  function Event(g: Grid, unknown: set<Cell>, c: Cell): Option<NodeKind> {
    if AtFrontier(unknown, c) then Some(Frontier)
    else if Degree(g, c) == 1 then Some(DeadEnd)
    else if Degree(g, c) >= 3 then Some(Junction)
    else None
  }

  ghost predicate RowSorted(s: seq<Cell>) {
    forall i, j :: 0 <= i < j < |s| ==> RowMajor(s[i], s[j]) && s[i] != s[j]
  }

  /** The node cells of a grid in row-major order with their kinds: every free cell
      with an event or, when there is none, the first free cell. */
  ghost predicate NodesOf(g: Grid, unknown: set<Cell>, order: seq<Cell>, kinds: map<Cell, NodeKind>) {
    && RowSorted(order)
    && (forall c :: c in order <==> c in kinds)
    && if exists c :: c in g && Event(g, unknown, c).Some? then
         && (forall c :: c in kinds <==> c in g && Event(g, unknown, c).Some?)
         && (forall c :: c in kinds ==> Some(kinds[c]) == Event(g, unknown, c))
       else if g == {} then order == []
       else
         |order| == 1 && order[0] in g && kinds[order[0]] == Anchor && forall c :: c in g ==> RowMajor(order[0], c)
  }

  /** What tracing relies on: row-major node cells among the free ones, every dead
      end and every junction among them. */
  ghost predicate Extracted(g: Grid, order: seq<Cell>) {
    && RowSorted(order)
    && (forall c :: c in order ==> c in g)
    && forall c :: c in g && Degree(g, c) != 0 && Degree(g, c) != 2 ==> c in order
  }

  lemma NodesAreExtracted(g: Grid, unknown: set<Cell>, order: seq<Cell>, kinds: map<Cell, NodeKind>)
    requires NodesOf(g, unknown, order, kinds)
    ensures Extracted(g, order)
  {
    hide AtFrontier, Degree, RowMajor;
    forall c | c in g && Degree(g, c) != 0 && Degree(g, c) != 2 ensures c in order {
      assert Event(g, unknown, c).Some?;
      assert c in kinds;
    }
    forall c | c in order ensures c in g {
      assert c in kinds;
    }
  }

  // ------------------------------------------------ nodes told from the grid

  /** One of the eight neighbours of c is unknown. */
  ghost predicate UnknownAround(unknown: set<Cell>, c: Cell) {
    exists n :: n in unknown && n != c && -1 <= n.x - c.x <= 1 && -1 <= n.y - c.y <= 1
  }

  /** The free cells above, below, left and right of c. */
  function Beside(g: Grid, c: Cell): set<Cell> {
    set n | n in g && ((n.y == c.y && (n.x == c.x - 1 || n.x == c.x + 1))
                       || (n.x == c.x && (n.y == c.y - 1 || n.y == c.y + 1)))
  }

  lemma UnknownIsFrontier(unknown: set<Cell>, c: Cell)
    ensures AtFrontier(unknown, c) <==> UnknownAround(unknown, c)
  {
    AllSteps();
    if AtFrontier(unknown, c) {
      var s :| s in STEPS && Cell(c.x + s.0, c.y + s.1) in unknown;
      assert -1 <= s.0 <= 1 && -1 <= s.1 <= 1 && (s.0 != 0 || s.1 != 0);
    }
    if UnknownAround(unknown, c) {
      var n :| n in unknown && n != c && -1 <= n.x - c.x <= 1 && -1 <= n.y - c.y <= 1;
      assert (n.x - c.x, n.y - c.y) in STEPS;
      assert Cell(c.x + (n.x - c.x), c.y + (n.y - c.y)) == n;
    }
  }

  function Alone(g: Grid, c: Cell): set<Cell> { if c in g then {c} else {} }

  lemma AloneCounts(g: Grid, x: int, y: int)
    ensures |Alone(g, Cell(x, y))| == Free(g, x, y)
  {
  }

  lemma DisjointCounts(a: set<Cell>, b: set<Cell>)
    requires a !! b
    ensures |a + b| == |a| + |b|
  {
  }

  lemma BesideIs(g: Grid, c: Cell)
    ensures var l, r := Alone(g, Cell(c.x - 1, c.y)), Alone(g, Cell(c.x + 1, c.y));
            var u, d := Alone(g, Cell(c.x, c.y - 1)), Alone(g, Cell(c.x, c.y + 1));
            Beside(g, c) == ((l + r) + u) + d
  {
  }

  lemma FourCount(a: set<Cell>, b: set<Cell>, c: set<Cell>, d: set<Cell>)
    requires a !! b && a !! c && a !! d && b !! c && b !! d && c !! d
    ensures |((a + b) + c) + d| == |a| + |b| + |c| + |d|
  {
    DisjointCounts(a, b);
    DisjointCounts(a + b, c);
    DisjointCounts(a + b + c, d);
  }

  lemma DegreeCounts(g: Grid, c: Cell)
    ensures Degree(g, c) == |Beside(g, c)|
  {
    BesideIs(g, c);
    AloneCounts(g, c.x - 1, c.y);
    AloneCounts(g, c.x + 1, c.y);
    AloneCounts(g, c.x, c.y - 1);
    AloneCounts(g, c.x, c.y + 1);
    hide Beside, Free;
    FourCount(Alone(g, Cell(c.x - 1, c.y)), Alone(g, Cell(c.x + 1, c.y)),
              Alone(g, Cell(c.x, c.y - 1)), Alone(g, Cell(c.x, c.y + 1)));
  }

  /** The kind a free cell has by itself, told from the grid. */
  ghost predicate KindIs(g: Grid, unknown: set<Cell>, c: Cell, kind: NodeKind) {
    match kind
    case Frontier => UnknownAround(unknown, c)
    case DeadEnd => !UnknownAround(unknown, c) && |Beside(g, c)| == 1
    case Junction => !UnknownAround(unknown, c) && |Beside(g, c)| >= 3
    case Anchor => false
  }

  lemma EventIsKind(g: Grid, unknown: set<Cell>, c: Cell)
    ensures forall kind :: Event(g, unknown, c) == Some(kind) <==> KindIs(g, unknown, c, kind)
  {
    UnknownIsFrontier(unknown, c);
    DegreeCounts(g, c);
    hide AtFrontier, UnknownAround, Degree, Beside;
  }

  /** Exactly which free cells are nodes, and of which kind: a FRONTIER with an unknown
      neighbour, otherwise a DEAD_END with one free cell beside it and a JUNCTION with
      three or more; only where no cell is any of these, the first one is the ANCHOR. */
  lemma NodeKindsExactly(g: Grid, unknown: set<Cell>, order: seq<Cell>, kinds: map<Cell, NodeKind>, c: Cell)
    requires NodesOf(g, unknown, order, kinds) && c in g
    ensures forall kind :: kind != Anchor ==> (c in kinds && kinds[c] == kind <==> KindIs(g, unknown, c, kind))
    ensures c in kinds && kinds[c] == Anchor <==>
              (forall b, kind :: b in g ==> !KindIs(g, unknown, b, kind)) && forall b :: b in g ==> RowMajor(c, b)
    ensures c in order <==> c in kinds
  {
    hide Event, KindIs, RowMajor;
    forall b ensures forall kind :: Event(g, unknown, b) == Some(kind) <==> KindIs(g, unknown, b, kind) {
      EventIsKind(g, unknown, b);
    }
    if exists b :: b in g && Event(g, unknown, b).Some? {
      var b :| b in g && Event(g, unknown, b).Some?;
      assert KindIs(g, unknown, b, Event(g, unknown, b).value);
      AnchorIsNoKind(g, unknown, c);
    } else {
      assert order[0] in order;
      FirstIsUnique(g, order[0], c);
    }
  }

  lemma AnchorIsNoKind(g: Grid, unknown: set<Cell>, c: Cell)
    ensures !KindIs(g, unknown, c, Anchor)
  {
  }

  lemma FirstIsUnique(g: Grid, a: Cell, c: Cell)
    requires a in g && c in g && forall b :: b in g ==> RowMajor(a, b)
    ensures (forall b :: b in g ==> RowMajor(c, b)) <==> c == a
  {
  }

  /** Free cells row by row. */
  method FreeCells(g: Grid, width: nat, height: nat) returns (cells: seq<Cell>)
    requires forall c :: c in g ==> 0 <= c.x < width && 0 <= c.y < height
    ensures RowSorted(cells) && forall c :: c in cells <==> c in g
  {
    cells := [];
    for y := 0 to height
      invariant RowSorted(cells)
      invariant forall c :: c in cells <==> c in g && c.y < y
    {
      for x := 0 to width
        invariant RowSorted(cells)
        invariant forall c :: c in cells <==> c in g && (c.y < y || (c.y == y && c.x < x))
      {
        if Cell(x, y) in g {
          AppendSorted(cells, Cell(x, y));
          cells := cells + [Cell(x, y)];
        }
      }
    }
  }

  lemma {:induction false} AppendSorted(s: seq<Cell>, c: Cell)
    requires RowSorted(s) && forall b :: b in s ==> RowMajor(b, c) && b != c
    ensures RowSorted(s + [c])
  {
  }

  /** The cells with an event among those looked at so far. */
  ghost predicate Found(g: Grid, unknown: set<Cell>, cells: seq<Cell>, order: seq<Cell>, kinds: map<Cell, NodeKind>) {
    && RowSorted(order) && (kinds == map[] ==> order == [])
    && (forall c :: c in order <==> c in kinds)
    && (forall c :: c in kinds <==> c in cells && Event(g, unknown, c).Some?)
    && (forall c :: c in kinds ==> Some(kinds[c]) == Event(g, unknown, c))
  }

  lemma FindNext(g: Grid, unknown: set<Cell>, cells: seq<Cell>, order: seq<Cell>, kinds: map<Cell, NodeKind>, c: Cell)
    requires Found(g, unknown, cells, order, kinds) && forall b :: b in cells ==> RowMajor(b, c) && b != c
    ensures Event(g, unknown, c).None? ==> Found(g, unknown, cells + [c], order, kinds)
    ensures Event(g, unknown, c).Some? ==>
              Found(g, unknown, cells + [c], order + [c], kinds[c := Event(g, unknown, c).value])
  {
    hide Event;
    AppendSorted(order, c);
    hide RowMajor, RowSorted;
  }

  /** The first free cell is the one node cell where there is no event. */
  lemma AllFound(g: Grid, unknown: set<Cell>, cells: seq<Cell>, order: seq<Cell>, kinds: map<Cell, NodeKind>)
    requires Found(g, unknown, cells, order, kinds) && forall c :: c in cells <==> c in g
    ensures kinds != map[] || g == {} ==> NodesOf(g, unknown, order, kinds)
    ensures kinds == map[] && cells != [] ==>
              NodesOf(g, unknown, [First(cells)], map[First(cells) := Anchor])
  {
    hide Event;
    if kinds != map[] {
      var c :| c in kinds;
      assert c in g && Event(g, unknown, c).Some?;
    } else {
      forall c | c in g ensures Event(g, unknown, c).None? { assert c !in kinds; }
      if cells == [] { assert g == {}; } else { assert First(cells) in g; }
    }
  }

  /** Node extraction.  The cells are met in row-major order, so the node cells are
      already listed in the order the source sorts them into. */
  method ExtractNodes(g: Grid, unknown: set<Cell>, width: nat, height: nat)
    returns (order: seq<Cell>, kinds: map<Cell, NodeKind>)
    requires forall c :: c in g ==> 0 <= c.x < width && 0 <= c.y < height
    ensures NodesOf(g, unknown, order, kinds)
  {
    hide Event, NodesOf;
    var cells := FreeCells(g, width, height);
    order, kinds := [], map[];
    for i := 0 to |cells|
      invariant Found(g, unknown, cells[..i], order, kinds)
    {
      var cell := cells[i];
      assert cells[..i + 1] == cells[..i] + [cell];
      forall b | b in cells[..i] ensures RowMajor(b, cell) && b != cell {}
      FindNext(g, unknown, cells[..i], order, kinds, cell);
      var event := Event(g, unknown, cell);
      if event.Some? {
        order, kinds := order + [cell], kinds[cell := event.value];
      }
    }
    assert cells[..|cells|] == cells;
    AllFound(g, unknown, cells, order, kinds);
    if kinds == map[] && cells != [] {
      var anchor := First(cells);
      order, kinds := [anchor], map[anchor := Anchor];
    }
  }

  // ------------------------------------------------------- order of the trace

  /** The step a comes before b in the order in which leaving steps are offered. */
  predicate Earlier(a: (Cell, Cell), b: (Cell, Cell)) {
    (RowMajor(a.0, b.0) && a.0 != b.0) || (a.0 == b.0 && RowMajor(a.1, b.1) && a.1 != b.1)
  }

  ghost predicate StepsSorted(steps: seq<(int, int)>) {
    forall i, j :: 0 <= i < j < |steps| ==> Earlier((Cell(0, 0), Cell(steps[i].0, steps[i].1)),
                                                    (Cell(0, 0), Cell(steps[j].0, steps[j].1)))
  }

  lemma LaterSteps(g: Grid, a: Cell, steps: seq<(int, int)>)
    requires steps != [] && StepsSorted(steps)
    ensures var b := Cell(a.x + steps[0].0, a.y + steps[0].1);
            forall c :: c in Filtered(g, a, steps[1..]) ==> RowMajor(b, c) && b != c
  {
    FilteredIs(g, a, steps[1..]);
    hide Legal, Filtered;
    var b := Cell(a.x + steps[0].0, a.y + steps[0].1);
    forall c | c in Filtered(g, a, steps[1..]) ensures RowMajor(b, c) && b != c {
      var j :| 0 <= j < |steps[1..]| && steps[1..][j] == (c.x - a.x, c.y - a.y);
      assert Earlier((Cell(0, 0), Cell(steps[0].0, steps[0].1)), (Cell(0, 0), Cell(steps[j + 1].0, steps[j + 1].1)));
    }
  }

  lemma LaterStepsSorted(steps: seq<(int, int)>)
    requires steps != [] && StepsSorted(steps)
    ensures StepsSorted(steps[1..])
  {
  }

  lemma {:induction false} FilteredSorted(g: Grid, a: Cell, steps: seq<(int, int)>)
    requires StepsSorted(steps)
    ensures RowSorted(Filtered(g, a, steps))
  {
    hide Legal, RowMajor, StepsSorted;
    if steps != [] {
      var b, rest := Cell(a.x + steps[0].0, a.y + steps[0].1), Filtered(g, a, steps[1..]);
      assert Filtered(g, a, steps) == (if Legal(g, a, b) then [b] else []) + rest;
      LaterStepsSorted(steps);
      FilteredSorted(g, a, steps[1..]);
      LaterSteps(g, a, steps);
      hide RowSorted, Filtered;
      PrependRowSorted(b, rest);
      NothingBefore(rest);
    }
  }

  lemma NothingBefore(s: seq<Cell>)
    ensures [] + s == s
  {
  }

  lemma {:induction false} PrependRowSorted(b: Cell, rest: seq<Cell>)
    requires RowSorted(rest) && forall c :: c in rest ==> RowMajor(b, c) && b != c
    ensures RowSorted([b] + rest)
  {
    hide RowMajor;
    var all := [b] + rest;
    forall i, j | 0 <= i < j < |all| ensures RowMajor(all[i], all[j]) && all[i] != all[j] {
      assert all[j] == rest[j - 1] && rest[j - 1] in rest;
      if i > 0 { assert all[i] == rest[i - 1]; }
    }
  }

  lemma NeighborsSorted(g: Grid, a: Cell)
    ensures RowSorted(ValidNeighbors(g, a))
  {
    AllStepsSorted();
    FilteredSorted(g, a, STEPS);
    hide RowSorted, StepsSorted, Filtered, Legal;
  }

  lemma AllStepsSorted()
    ensures StepsSorted(STEPS)
  {
  }

  ghost predicate OffersSorted(starts: seq<(Cell, Cell)>) {
    forall i, j :: 0 <= i < j < |starts| ==> Earlier(starts[i], starts[j])
  }

  lemma {:induction false} FromIs(a: Cell, neighbors: seq<Cell>)
    ensures |From(a, neighbors)| == |neighbors|
    ensures forall i :: 0 <= i < |neighbors| ==> From(a, neighbors)[i] == (a, neighbors[i])
  {
    if neighbors != [] { FromIs(a, neighbors[..|neighbors| - 1]); }
  }

  /** Leaving steps are offered in row-major order, by node and then by neighbour. */
  lemma {:induction false} LeavingSorted(g: Grid, order: seq<Cell>)
    requires RowSorted(order)
    ensures OffersSorted(Leaving(g, order)) && forall s :: s in Leaving(g, order) ==> s.0 in order
  {
    hide RowMajor, ValidNeighbors;
    if order != [] {
      var m := |order| - 1;
      var last := order[m];
      LeavingSorted(g, order[..m]);
      NeighborsSorted(g, last);
      FromIs(last, ValidNeighbors(g, last));
      var before, now := Leaving(g, order[..m]), From(last, ValidNeighbors(g, last));
      forall i, j | 0 <= i < j < |before + now| ensures Earlier((before + now)[i], (before + now)[j]) {
        if i < |before| <= j { assert before[i] in before; }
      }
    }
  }

  /** Where in the scan a walk was started. */
  lemma {:induction false} ScannedAt(g: Grid, nodes: set<Cell>, starts: seq<(Cell, Cell)>, walks: seq<seq<Cell>>,
                                     k: nat) returns (t: nat)
    requires Scanned(g, nodes, starts, walks) && k < |walks|
    ensures t < |starts| && Scanned(g, nodes, starts[..t], walks[..k])
    ensures |walks[k]| >= 2 && starts[t] == (walks[k][0], walks[k][1])
    decreases |starts|
  {
    hide Walk, Stopped, Step, Steps, Taken;
    var n, m := |starts| - 1, |walks| - 1;
    if Scanned(g, nodes, starts[..n], walks) && Step(starts[n].0, starts[n].1) in Taken(walks) {
      t := ScannedAt(g, nodes, starts[..n], walks, k);
      assert starts[..n][..t] == starts[..t];
    } else if k == m {
      t := n;
      WalkStarts(g, nodes, Taken(walks[..m]), walks[m]);
    } else {
      t := ScannedAt(g, nodes, starts[..n], walks[..m], k);
      assert starts[..n][..t] == starts[..t] && walks[..m][..k] == walks[..k];
    }
  }

  /** Every leaving step offered before a walk was started is taken before it. */
  lemma EarlierIsTaken(g: Grid, order: seq<Cell>, walks: seq<seq<Cell>>, k: nat, a: Cell, b: Cell)
    requires IsTrace(g, order, walks) && RowSorted(order) && k < |walks| && |walks[k]| >= 2
    requires a in order && Legal(g, a, b) && Earlier((a, b), (walks[k][0], walks[k][1]))
    ensures Step(a, b) in Taken(walks[..k])
  {
    hide Legal, Step, Taken, RowMajor, Scanned, Leaving;
    var starts := Leaving(g, order);
    LeavingHas(g, order, a, b);
    LeavingSorted(g, order);
    var t := ScannedAt(g, AsSet(order), starts, walks, k);
    var u :| 0 <= u < |starts| && starts[u] == (a, b);
    if u >= t {
      EarlierAsymmetric(starts[t], starts[u]);
      assert false;
    }
    ScannedWalks(g, AsSet(order), starts[..t], walks[..k]);
    assert starts[..t][u] == (a, b);
    assert Step((a, b).0, (a, b).1) in Taken(walks[..k]);
  }

  lemma EarlierAsymmetric(a: (Cell, Cell), b: (Cell, Cell))
    requires Earlier(b, a)
    ensures a != b && !Earlier(a, b)
  {
  }

  // ------------------------------------------------------------ free squares

  /** A free two-by-two block with upper left cell t. */
  predicate FreeSquare(g: Grid, t: Cell) {
    t in g && Cell(t.x + 1, t.y) in g && Cell(t.x, t.y + 1) in g && Cell(t.x + 1, t.y + 1) in g
  }

  predicate InSquare(t: Cell, c: Cell) { t.x <= c.x <= t.x + 1 && t.y <= c.y <= t.y + 1 }

  /** A cell without a degree event. */
  predicate Plain(g: Grid, c: Cell) { Degree(g, c) == 0 || Degree(g, c) == 2 }

  /** Position in the block, in row-major order. */
  function Place(t: Cell, c: Cell): int { 2 * (c.y - t.y) + (c.x - t.x) }

  lemma PlaceOrders(t: Cell, a: Cell, b: Cell)
    requires InSquare(t, a) && InSquare(t, b)
    ensures 0 <= Place(t, a) <= 3 && (Place(t, a) == Place(t, b) <==> a == b)
    ensures RowMajor(a, b) <==> Place(t, a) <= Place(t, b)
  {
  }

  /** The first place of the block other than i and j. */
  function Least(i: int, j: int): int {
    if i != 0 && j != 0 then 0 else if i != 1 && j != 1 then 1 else 2
  }

  /** A cell without a degree event has three legal neighbours only as a corner of a
      free block. */
  lemma BranchIsCorner(g: Grid, c: Cell, a: Cell, b: Cell, d: Cell) returns (t: Cell)
    requires c in g && Plain(g, c) && Legal(g, c, a) && Legal(g, c, b) && Legal(g, c, d)
    requires a != b && b != d && a != d
    ensures FreeSquare(g, t) && InSquare(t, c)
  {
    var e := if c.x != a.x && c.y != a.y then a else if c.x != b.x && c.y != b.y then b else d;
    t := Cell(if c.x < e.x then c.x else e.x, if c.y < e.y then c.y else e.y);
  }

  /** Its neighbours are then exactly the other three cells of the block. */
  lemma CornerNeighbors(g: Grid, t: Cell, c: Cell, b: Cell)
    requires FreeSquare(g, t) && InSquare(t, c) && Plain(g, c)
    ensures Legal(g, c, b) <==> InSquare(t, b) && b != c
  {
  }

  /** And it goes on to the first of the two it did not come from. */
  lemma CornerOnward(g: Grid, t: Cell, a: Cell, c: Cell) returns (n: Cell)
    requires FreeSquare(g, t) && InSquare(t, c) && Plain(g, c) && InSquare(t, a) && a != c
    ensures Onward(g, a, c) == Some(n) && InSquare(t, n) && Place(t, n) == Least(Place(t, a), Place(t, c))
    ensures forall b :: InSquare(t, b) && Place(t, b) == Least(Place(t, a), Place(t, c)) ==> b == n
  {
    forall b ensures Legal(g, c, b) <==> InSquare(t, b) && b != c { CornerNeighbors(g, t, c, b); }
    OnwardIsFirst(g, a, c);
    hide Legal, Onward, FreeSquare, Plain;
    var k := Least(Place(t, a), Place(t, c));
    var first := Cell(t.x + k % 2, t.y + k / 2);
    assert InSquare(t, first) && Place(t, first) == k;
    assert first != a && first != c;
    assert Legal(g, c, first);
    n := Onward(g, a, c).value;
    PlaceOrders(t, n, first);
    PlaceOrders(t, first, n);
    forall b | InSquare(t, b) && Place(t, b) == k ensures b == first { PlaceOrders(t, b, first); }
    PlaceOrders(t, n, a);
    PlaceOrders(t, n, c);
  }

  /** A path by legal steps with no node cell strictly inside. */
  ghost predicate Passing(g: Grid, order: seq<Cell>, w: seq<Cell>) {
    && |w| >= 2 && w[0] in g
    && (forall i :: 0 <= i < |w| - 1 ==> LegalAt(g, w, i))
    && forall i :: 0 < i < |w| - 1 ==> w[i] !in order
  }

  lemma WalkPasses(g: Grid, order: seq<Cell>, w: seq<Cell>)
    requires Walk(g, AsSet(order), w)
    ensures Passing(g, order, w) && w[0] in order
  {
    forall i | 0 < i < |w| - 1 ensures w[i] !in order { assert PassesAt(g, AsSet(order), w, i); }
    hide Onward, Legal;
  }

  lemma PassingSteps(g: Grid, order: seq<Cell>, w: seq<Cell>, j: nat)
    requires Passing(g, order, w) && j < |w| - 1
    ensures Legal(g, w[j], w[j + 1]) && w[j + 1] in g && w[j] != w[j + 1]
  {
    assert LegalAt(g, w, j);
  }

  lemma StepBack(g: Grid, order: seq<Cell>, w: seq<Cell>, j: nat)
    requires Passing(g, order, w) && j < |w| - 1
    ensures Legal(g, w[j + 1], w[j])
  {
    PassingSteps(g, order, w, j);
    if j > 0 { PassingSteps(g, order, w, j - 1); }
    LegalBothWays(g, w[j], w[j + 1]);
  }

  /** Its inner cells have no degree event. */
  lemma InnerIsPlain(g: Grid, order: seq<Cell>, w: seq<Cell>, j: nat)
    requires Extracted(g, order) && Passing(g, order, w) && 0 < j < |w| - 1
    ensures w[j] in g && w[j] !in order && Plain(g, w[j])
  {
    PassingSteps(g, order, w, j - 1);
    hide Degree, Legal;
  }

  /** It comes to a corner of a free block only from within the block. */
  lemma {:induction false} CameFromSquare(g: Grid, order: seq<Cell>, t: Cell, w: seq<Cell>, j: nat)
    requires Extracted(g, order) && FreeSquare(g, t)
    requires Passing(g, order, w) && j < |w| - 1 && InSquare(t, w[j])
    ensures forall k :: 0 <= k <= j ==> InSquare(t, w[k])
  {
    hide Passing, Extracted, FreeSquare, InSquare;
    if j > 0 {
      InnerIsPlain(g, order, w, j);
      StepBack(g, order, w, j - 1);
      CornerNeighbors(g, t, w[j], w[j - 1]);
      hide *;
      CameFromSquare(g, order, t, w, j - 1);
    }
  }

  lemma {:induction false} GoesOnInSquare(g: Grid, order: seq<Cell>, t: Cell, w: seq<Cell>, j: nat)
    requires Extracted(g, order) && FreeSquare(g, t)
    requires Passing(g, order, w) && 0 < j < |w| - 1 && InSquare(t, w[j])
    ensures forall k :: j <= k < |w| ==> InSquare(t, w[k])
    decreases |w| - j
  {
    hide Passing, Extracted, FreeSquare, InSquare;
    InnerIsPlain(g, order, w, j);
    PassingSteps(g, order, w, j);
    CornerNeighbors(g, t, w[j], w[j + 1]);
    if j + 1 < |w| - 1 {
      hide *;
      GoesOnInSquare(g, order, t, w, j + 1);
    }
  }

  /** Passing a cell with a third neighbour stays inside one free block. */
  lemma {:induction false} BranchConfines(g: Grid, order: seq<Cell>, w: seq<Cell>, i: nat, x: Cell) returns (t: Cell)
    requires Extracted(g, order) && Passing(g, order, w) && 0 < i < |w| - 1 && w[i - 1] != w[i + 1]
    requires Legal(g, w[i], x) && x != w[i - 1] && x != w[i + 1]
    ensures FreeSquare(g, t) && Confined(t, w)
  {
    InnerIsPlain(g, order, w, i);
    StepBack(g, order, w, i - 1);
    PassingSteps(g, order, w, i);
    t := BranchIsCorner(g, w[i], w[i - 1], w[i + 1], x);
    hide Extracted, Passing, FreeSquare, InSquare, Legal, Plain;
    CameFromSquare(g, order, t, w, i);
    GoesOnInSquare(g, order, t, w, i);
  }

  ghost predicate Confined(t: Cell, w: seq<Cell>) {
    |w| >= 2 && forall k :: 0 <= k < |w| ==> InSquare(t, w[k])
  }

  lemma ConfinedAt(t: Cell, w: seq<Cell>, k: nat)
    requires Confined(t, w) && k < |w|
    ensures InSquare(t, w[k])
  {
  }

  /** Walking inside a block, place by place. */
  lemma InnerPlaces(g: Grid, order: seq<Cell>, t: Cell, w: seq<Cell>, k: nat)
    requires Extracted(g, order) && FreeSquare(g, t) && Walk(g, AsSet(order), w) && Confined(t, w) && 0 < k < |w| - 1
    ensures w[k] !in order && 0 <= Place(t, w[k]) <= 3
    ensures Place(t, w[k - 1]) != Place(t, w[k]) && Place(t, w[k]) != Place(t, w[k + 1])
    ensures Place(t, w[k + 1]) == Least(Place(t, w[k - 1]), Place(t, w[k]))
    ensures TurnsBack(g, w, k) <==> Place(t, w[k - 1]) == Least(Place(t, w[k + 1]), Place(t, w[k]))
  {
    assert PassesAt(g, AsSet(order), w, k);
    assert Onward(g, w[k - 1], w[k]) == Some(w[k + 1]);
    assert TurnsBack(g, w, k) <==> Onward(g, w[k + 1], w[k]) == Some(w[k - 1]);
    hide *;
    WalkPasses(g, order, w);
    InnerIsPlain(g, order, w, k);
    PassingSteps(g, order, w, k - 1);
    PassingSteps(g, order, w, k);
    ConfinedAt(t, w, k - 1);
    ConfinedAt(t, w, k);
    ConfinedAt(t, w, k + 1);
    var forth := CornerOnward(g, t, w[k - 1], w[k]);
    var back := CornerOnward(g, t, w[k + 1], w[k]);
    PlaceOrders(t, w[k - 1], w[k]);
    PlaceOrders(t, w[k], w[k + 1]);
  }

  /** The places of a walk inside a block. */
  function Places(t: Cell, w: seq<Cell>): seq<int> { seq(|w|, k requires 0 <= k < |w| => Place(t, w[k])) }

  /** Places that follow the rule for going on. */
  ghost predicate Chain(s: seq<int>) {
    && |s| >= 2
    && (forall k :: 0 <= k < |s| ==> 0 <= s[k] <= 3)
    && (forall k :: 0 < k < |s| - 1 ==> ChainAt(s, k))
    && s[0] != s[1]
  }

  predicate ChainAt(s: seq<int>, k: int)
    requires 0 < k < |s| - 1
  {
    s[k + 1] == Least(s[k - 1], s[k])
  }

  predicate BackAt(s: seq<int>, k: int)
    requires 0 < k < |s| - 1
  {
    s[k - 1] == Least(s[k + 1], s[k])
  }

  lemma {:induction false} ChainStep(g: Grid, order: seq<Cell>, t: Cell, w: seq<Cell>, k: nat)
    requires Extracted(g, order) && FreeSquare(g, t) && Walk(g, AsSet(order), w) && Confined(t, w) && 0 < k < |w| - 1
    ensures w[k] !in order && ChainAt(Places(t, w), k) && (TurnsBack(g, w, k) <==> BackAt(Places(t, w), k))
  {
    hide Extracted, Walk, FreeSquare, TurnsBack, InSquare, Place, Least;
    InnerPlaces(g, order, t, w, k);
  }

  lemma {:induction false} WalkIsChain(g: Grid, order: seq<Cell>, t: Cell, w: seq<Cell>)
    requires Extracted(g, order) && FreeSquare(g, t) && Walk(g, AsSet(order), w) && Confined(t, w)
    ensures Chain(Places(t, w))
    ensures forall k :: 0 < k < |w| - 1 ==> w[k] !in order && (TurnsBack(g, w, k) <==> BackAt(Places(t, w), k))
  {
    WalkPasses(g, order, w);
    PassingSteps(g, order, w, 0);
    hide Extracted, Walk, Passing, FreeSquare, TurnsBack, InSquare, Place, ChainAt, BackAt, Legal;
    forall k | 0 <= k < |w| ensures 0 <= Place(t, w[k]) <= 3 { PlaceOrders(t, w[k], w[k]); }
    PlaceOrders(t, w[0], w[1]);
    forall k | 0 < k < |w| - 1
      ensures w[k] !in order && ChainAt(Places(t, w), k) && (TurnsBack(g, w, k) <==> BackAt(Places(t, w), k))
    {
      ChainStep(g, order, t, w, k);
    }
  }

  /** A chain soon comes back to its start or takes its second step again. */
  lemma ChainsRepeat(s: seq<int>)
    requires Chain(s) && |s| > 5
    ensures s[3] == s[0] || s[4] == s[0] || (s[1] == s[4] && s[2] == s[5])
  {
    assert ChainAt(s, 1) && ChainAt(s, 2) && ChainAt(s, 3) && ChainAt(s, 4);
  }

  /** A chain between places it does not pass in between turns back everywhere or
      ends before its start, or with an earlier step at its start. */
  lemma ChainIsLate(s: seq<int>)
    requires Chain(s) && |s| <= 5
    requires forall k :: 0 < k < |s| - 1 ==> s[k] != s[0] && s[k] != s[|s| - 1]
    ensures var n := |s| - 1;
            (forall k :: 0 < k < n ==> BackAt(s, k)) || s[n] < s[0] || (s[n] == s[0] && s[n - 1] < s[1])
  {
    if |s| > 2 { assert ChainAt(s, 1); }
    if |s| > 3 { assert ChainAt(s, 2); }
    if |s| > 4 { assert ChainAt(s, 3); }
  }

  lemma SamePlace(t: Cell, w: seq<Cell>, i: nat, j: nat)
    requires Confined(t, w) && i < |w| && j < |w|
    ensures Places(t, w)[i] == Places(t, w)[j] <==> w[i] == w[j]
    ensures Places(t, w)[i] <= Places(t, w)[j] <==> RowMajor(w[i], w[j])
  {
    PlaceOrders(t, w[i], w[j]);
  }

  /** A corridor inside a block has at most five cells. */
  lemma ShortInSquare(g: Grid, order: seq<Cell>, t: Cell, p: seq<Cell>)
    requires Extracted(g, order) && FreeSquare(g, t) && Corridor(g, AsSet(order), p) && Confined(t, p)
    ensures |p| <= 5 && p[0] in order && p[|p| - 1] in order
  {
    CorridorLength(g, AsSet(order), p);
    WalkIsChain(g, order, t, p);
    hide Extracted, Walk, Corridor, FreeSquare, TurnsBack, Chain, Confined, Places, BackAt;
    if |p| > 5 {
      assert StepAt(p, 1) != StepAt(p, 4);
      StepEnds(p[1], p[2], p[4], p[5]);
      SamePlace(t, p, 3, 0);
      SamePlace(t, p, 4, 0);
      SamePlace(t, p, 1, 4);
      SamePlace(t, p, 2, 5);
      ChainsRepeat(Places(t, p));
      assert false;
    }
  }

  /** In a block, a corridor that cannot be walked back is offered later than its
      last step from the other end. */
  lemma OneWayIsLate(g: Grid, order: seq<Cell>, t: Cell, p: seq<Cell>)
    requires Extracted(g, order) && FreeSquare(g, t) && Corridor(g, AsSet(order), p) && Confined(t, p)
    ensures (forall i :: 0 < i < |p| - 1 ==> TurnsBack(g, p, i))
            || Earlier((p[|p| - 1], p[|p| - 2]), (p[0], p[1]))
  {
    ShortInSquare(g, order, t, p);
    WalkIsChain(g, order, t, p);
    hide Extracted, Walk, Corridor, FreeSquare, TurnsBack, Chain, Confined, Places, BackAt, RowMajor;
    var s, n := Places(t, p), |p| - 1;
    assert |s| == |p|;
    forall k | 0 < k < n ensures s[k] != s[0] && s[k] != s[n] {
      SamePlace(t, p, k, 0);
      SamePlace(t, p, k, n);
    }
    ChainIsLate(s);
    SamePlace(t, p, 0, n);
    SamePlace(t, p, n, 0);
    SamePlace(t, p, n - 1, 1);
    SamePlace(t, p, 1, n - 1);
  }

  /** Nodes at the ends and a chain that turns back everywhere in between. */
  ghost predicate BackChain(s: seq<int>) {
    Chain(s) && 3 <= |s| <= 5
    && forall k :: 0 < k < |s| - 1 ==> BackAt(s, k) && s[k] != s[0] && s[k] != s[|s| - 1]
  }

  /** A chain that turns back everywhere passes one place between two ends, or two
      places from one end back to it; its ends, and in a loop all its places, come
      before every other place of the block. */
  lemma TwoWayChain(s: seq<int>, q: int)
    requires BackChain(s) && 0 <= q <= 3
    ensures 3 <= |s| <= 4 && (|s| == 3 ==> s[0] != s[2]) && (|s| == 4 ==> s[3] == s[0])
    ensures q !in s ==> s[0] < q && s[2] < q && (|s| == 4 ==> s[1] < q)
  {
    assert ChainAt(s, 1) && BackAt(s, 1);
    if |s| > 3 { assert ChainAt(s, 2) && BackAt(s, 2); }
  }

  lemma CorridorInner(g: Grid, order: seq<Cell>, p: seq<Cell>)
    requires Corridor(g, AsSet(order), p)
    ensures |p| >= 2 && p[0] in order && p[|p| - 1] in order && forall k :: 0 < k < |p| - 1 ==> p[k] !in order
  {
    forall k | 0 < k < |p| - 1 ensures p[k] !in order { assert PassesAt(g, AsSet(order), p, k); }
    hide Onward, Legal;
  }

  lemma CorridorWalks(g: Grid, order: seq<Cell>, p: seq<Cell>)
    requires Corridor(g, AsSet(order), p)
    ensures Walk(g, AsSet(order), p)
  {
  }

  lemma {:induction false} BackCells(t: Cell, p: seq<Cell>)
    requires Confined(t, p) && 3 <= |p| <= 5 && Chain(Places(t, p))
    requires forall k :: 0 < k < |p| - 1 ==> p[k] != p[0] && p[k] != p[|p| - 1]
    requires forall k :: 0 < k < |p| - 1 ==> BackAt(Places(t, p), k)
    ensures BackChain(Places(t, p))
  {
    hide Chain, BackAt, Confined;
    var s, n := Places(t, p), |p| - 1;
    assert |s| == |p|;
    hide Places;
    forall k | 0 < k < n ensures BackAt(s, k) && s[k] != s[0] && s[k] != s[n] {
      SamePlace(t, p, k, 0);
      SamePlace(t, p, k, n);
    }
  }

  lemma {:induction false} TwoWayPlaces(g: Grid, order: seq<Cell>, t: Cell, p: seq<Cell>)
    requires Extracted(g, order) && FreeSquare(g, t) && Confined(t, p) && |p| >= 3
    requires Corridor(g, AsSet(order), p) && Corridor(g, AsSet(order), Reversed(p))
    ensures BackChain(Places(t, p))
  {
    hide *;
    ShortInSquare(g, order, t, p);
    CorridorInner(g, order, p);
    CorridorWalks(g, order, p);
    WalkIsChain(g, order, t, p);
    TwoWayIffTurnsBack(g, AsSet(order), p);
    assert forall k :: 0 < k < |p| - 1 ==> p[k] != p[0] && p[k] != p[|p| - 1];
    assert forall k :: 0 < k < |p| - 1 ==> TurnsBack(g, p, k);
    BackCells(t, p);
  }

  /** The cells of a two-way corridor inside a block. */
  lemma {:induction false} TwoWayInSquare(t: Cell, p: seq<Cell>)
    requires Confined(t, p) && BackChain(Places(t, p))
    ensures 3 <= |p| <= 4 && (|p| == 3 ==> p[0] != p[2]) && (|p| == 4 ==> p[3] == p[0])
    ensures forall c :: InSquare(t, c) && c !in p ==>
              RowMajor(p[0], c) && RowMajor(p[|p| - 1], c) && (|p| == 4 ==> RowMajor(p[1], c))
  {
    TwoWayChain(Places(t, p), 0);
    SamePlace(t, p, 0, |p| - 1);
    hide BackChain, RowMajor, Place;
    forall c | InSquare(t, c) && c !in p
      ensures RowMajor(p[0], c) && RowMajor(p[|p| - 1], c) && (|p| == 4 ==> RowMajor(p[1], c))
    {
      OthersComeLater(t, p, c);
    }
  }

  lemma {:induction false} OthersComeLater(t: Cell, p: seq<Cell>, c: Cell)
    requires Confined(t, p) && BackChain(Places(t, p)) && InSquare(t, c) && c !in p
    ensures RowMajor(p[0], c) && RowMajor(p[|p| - 1], c) && (|p| == 4 ==> RowMajor(p[1], c))
  {
    var s := Places(t, p);
    hide BackChain, RowMajor, Place;
    PlaceOrders(t, c, c);
    forall k | 0 <= k < |p| ensures s[k] != Place(t, c) { PlaceOrders(t, p[k], c); }
    assert |s| == |p|;
    assert Place(t, c) !in s;
    TwoWayChain(s, Place(t, c));
    PlaceOrders(t, p[0], c);
    PlaceOrders(t, p[|p| - 1], c);
    PlaceOrders(t, p[1], c);
    hide InSquare;
  }

  /** The two steps with which p can be set off along. */
  ghost predicate EndStepEarlier(p: seq<Cell>, w: seq<Cell>)
    requires |p| >= 2 && |w| >= 2
  {
    Earlier((p[0], p[1]), (w[0], w[1])) || Earlier((p[|p| - 1], p[|p| - 2]), (w[0], w[1]))
  }

  lemma TouchConfined(g: Grid, order: seq<Cell>, t: Cell, p: seq<Cell>, w: seq<Cell>, j: nat)
    requires Extracted(g, order) && FreeSquare(g, t) && Confined(t, p)
    requires Walk(g, AsSet(order), w) && 0 < j < |w| - 1 && StepAt(w, j) in Steps(p)
    ensures Confined(t, w) && w[j] in p && w[j + 1] in p
  {
    var i :| 0 <= i < |p| - 1 && StepAt(p, i) == StepAt(w, j);
    StepEnds(p[i], p[i + 1], w[j], w[j + 1]);
    WalkPasses(g, order, w);
    hide Walk, Passing, Extracted, FreeSquare, InSquare, Step;
    CameFromSquare(g, order, t, w, j);
    GoesOnInSquare(g, order, t, w, j);
  }

  /** Coming from one end by the fourth cell to the middle of p. */
  lemma {:induction false} TouchesSecond(g: Grid, order: seq<Cell>, t: Cell, p: seq<Cell>, w: seq<Cell>, j: nat)
    requires Extracted(g, order) && FreeSquare(g, t) && Confined(t, p) && |p| == 3 && p[0] != p[2]
    requires p[0] in order && p[1] !in order && p[2] in order && p[0] != p[1] && p[1] != p[2]
    requires Walk(g, AsSet(order), w) && 0 < j < |w| - 1 && w[j] in p && w[j + 1] in p && Confined(t, w)
    requires w[0] in order && w[0] in p && w[1] !in p && RowMajor(p[0], w[1]) && RowMajor(p[2], w[1])
    ensures EndStepEarlier(p, w)
  {
    hide *;
    assert j != 1;
    InnerPlaces(g, order, t, w, 1);
    WalkPasses(g, order, w);
    InnerIsPlain(g, order, w, 2);
    ConfinedAt(t, w, 0);
    ConfinedAt(t, w, 1);
    ConfinedAt(t, w, 2);
    ConfinedAt(t, p, 0);
    ConfinedAt(t, p, 1);
    ConfinedAt(t, p, 2);
    assert p[0] in p && p[1] in p && p[2] in p;
    if w[0] == p[0] {
      FourCells(t, w[0], p[1], p[2], w[1], w[2]);
      StartsLater(p, w);
    } else {
      assert w[0] == p[2];
      FourCells(t, w[0], p[1], p[0], w[1], w[2]);
      StartsLater(p, w);
    }
  }

  lemma StartsLater(p: seq<Cell>, w: seq<Cell>)
    requires |p| == 3 && |w| >= 2 && w[0] in {p[0], p[2]} && p[1] != w[1] && RowMajor(p[1], w[1])
    ensures EndStepEarlier(p, w)
  {
  }

  /** With a, m, q and f filling the block, going on from a by f leads to m and not
      to q only if m comes first. */
  lemma {:induction false} FourCells(t: Cell, a: Cell, m: Cell, q: Cell, f: Cell, c: Cell)
    requires InSquare(t, a) && InSquare(t, m) && InSquare(t, q) && InSquare(t, f) && InSquare(t, c)
    requires a != m && a != q && a != f && m != q && m != f && q != f && c != q
    requires Place(t, c) == Least(Place(t, a), Place(t, f)) && RowMajor(q, f)
    ensures RowMajor(m, f)
  {
  }

  /** Comparing the first step of w with the end steps of p. */
  lemma OutsideStart(p: seq<Cell>, w: seq<Cell>)
    requires 3 <= |p| <= 4 && |w| >= 2 && w[0] != w[1]
    requires w[0] !in p ==> RowMajor(p[0], w[0])
    requires w[0] in p ==> w[0] == p[0] || w[0] == p[|p| - 1]
    requires w[1] in p ==> w[1] != p[0] && w[1] != p[|p| - 1]
    requires |p| == 4 ==> p[3] == p[0] && (w[1] !in p ==> RowMajor(p[1], w[1]))
    requires |p| == 3 && w[0] in p ==> w[1] in p
    ensures Step(w[0], w[1]) in {Step(p[0], p[1]), Step(p[|p| - 2], p[|p| - 1])} || EndStepEarlier(p, w)
  {
    StepEnds(p[0], p[1], w[0], w[1]);
    StepEnds(p[|p| - 2], p[|p| - 1], w[0], w[1]);
    hide RowMajor, Step;
  }

  /** A walk that touches a two-way corridor inside a block starts along it, or was
      offered after one of its end steps. */
  lemma {:induction false} TouchesLate(g: Grid, order: seq<Cell>, t: Cell, p: seq<Cell>, w: seq<Cell>, j: nat)
    requires Extracted(g, order) && FreeSquare(g, t) && Confined(t, p) && |p| >= 3
    requires Corridor(g, AsSet(order), p) && Corridor(g, AsSet(order), Reversed(p))
    requires Walk(g, AsSet(order), w) && j < |w| - 1 && StepAt(w, j) in Steps(p)
    ensures Step(w[0], w[1]) in Steps(p) || EndStepEarlier(p, w)
  {
    if j > 0 {
      TouchConfined(g, order, t, p, w, j);
      TwoWayPlaces(g, order, t, p);
      TwoWayInSquare(t, p);
      FirstUsed(p);
      LastUsed(p);
      WalkPasses(g, order, w);
      PassingSteps(g, order, w, 0);
      InnerIsPlain(g, order, w, 1);
      CorridorInner(g, order, p);
      WalkPasses(g, order, p);
      PassingSteps(g, order, p, 0);
      PassingSteps(g, order, p, 1);
      assert InSquare(t, w[0]) && InSquare(t, w[1]);
      hide Extracted, Walk, Corridor, FreeSquare, RowMajor, InSquare, Step, Steps, Legal, Reversed, EndStepEarlier;
      hide Confined, StepAt, Plain, Passing;
      if w[0] in p && w[1] !in p && |p| == 3 {
        TouchesSecond(g, order, t, p, w, j);
      } else {
        OutsideStart(p, w);
      }
    }
  }

  // ------------------------------------------ exactly which corridors are edges

  /** A corridor with a side branch lies inside one free block. */
  lemma {:induction false} BranchedInSquare(g: Grid, order: seq<Cell>, p: seq<Cell>) returns (t: Cell)
    requires Extracted(g, order) && Corridor(g, AsSet(order), p) && !Unbranched(g, p)
    ensures FreeSquare(g, t) && Confined(t, p) && |p| >= 3
  {
    var i: int, x :| 0 < i < |p| - 1 && Legal(g, p[i], x) && x != p[i - 1] && x != p[i + 1];
    assert PassesAt(g, AsSet(order), p, i);
    OnwardIsFirst(g, p[i - 1], p[i]);
    WalkPasses(g, order, p);
    hide Extracted, Walk, FreeSquare, Onward, Legal, Unbranched;
    t := BranchConfines(g, order, p, i, x);
  }

  lemma CorridorStops(g: Grid, nodes: set<Cell>, p: seq<Cell>)
    requires Corridor(g, nodes, p)
    ensures NextWalk(g, nodes, {}, p)
  {
    hide Walk, Steps, Onward;
    CorridorLength(g, nodes, p);
  }

  /** Corridors that set off alike are the same. */
  lemma CorridorUnique(g: Grid, nodes: set<Cell>, p: seq<Cell>, q: seq<Cell>)
    requires Corridor(g, nodes, p) && Corridor(g, nodes, q) && |p| >= 2 && |q| >= 2 && p[0] == q[0] && p[1] == q[1]
    ensures p == q
  {
    CorridorStops(g, nodes, p);
    CorridorStops(g, nodes, q);
    hide Corridor, NextWalk;
    NextWalkUnique(g, nodes, {}, p, q);
  }

  /** A walk of the trace that became an edge can be walked both ways. */
  lemma {:induction false} TracedIsTwoWay(g: Grid, order: seq<Cell>, walks: seq<seq<Cell>>, k: nat)
    requires Extracted(g, order) && IsTrace(g, order, walks) && k < |walks|
    requires Corridor(g, AsSet(order), walks[k]) && NextWalk(g, AsSet(order), Taken(walks[..k]), walks[k])
    ensures Corridor(g, AsSet(order), Reversed(walks[k]))
  {
    var w, nodes := walks[k], AsSet(order);
    hide Unbranched, Scanned, Taken, Reversed, Step, Steps, Onward, Legal, Earlier;
    if Unbranched(g, w) {
      UnbranchedIsTwoWay(g, nodes, w);
    } else {
      var t := BranchedInSquare(g, order, w);
      OneWayIsLate(g, order, t, w);
      TwoWayIffTurnsBack(g, nodes, w);
      var n := |w| - 1;
      CorridorInner(g, order, w);
      WalkPasses(g, order, w);
      StepBack(g, order, w, n - 1);
      LastUsed(w);
      StepEnds(w[n], w[n - 1], w[n - 1], w[n]);
      hide Confined, FreeSquare, TurnsBack, Walk, Passing, Stopped, Corridor;
      if Earlier((w[n], w[n - 1]), (w[0], w[1])) {
        EarlierIsTaken(g, order, walks, k, w[n], w[n - 1]);
        assert false;
      }
    }
  }

  /** Every two-way corridor is one edge, and no other edge takes any of its steps. */
  lemma {:induction false} TwoWayIsOneEdge(g: Grid, order: seq<Cell>, edges: seq<Edge>, p: seq<Cell>) returns (e: nat)
    requires Extracted(g, order) && CorridorGraph(g, order, edges)
    requires Corridor(g, AsSet(order), p) && Corridor(g, AsSet(order), Reversed(p))
    ensures e < |edges| && (edges[e].path == p || edges[e].path == Reversed(p))
    ensures forall f :: 0 <= f < |edges| && f != e ==> Steps(edges[f].path) !! Steps(p)
  {
    hide MadeOf, IsTrace, Unbranched, Reversed, Taken, Step, Steps, Onward, Legal, Earlier, SetsOff;
    if Unbranched(g, p) {
      e := CorridorIsOneEdge(g, order, edges, p);
    } else {
      var nodes := AsSet(order);
      var walks :| IsTrace(g, order, walks) && MadeOf(order, edges, Arrivals(nodes, walks));
      var t := BranchedInSquare(g, order, p);
      var k, j := FirstToucher(g, order, walks, p);
      TouchesLate(g, order, t, p, walks[k], j);
      if EndStepEarlier(p, walks[k]) { NotLate(g, order, walks, p, k); assert false; }
      WalkPasses(g, order, walks[k]);
      hide Walk, Stopped, Confined, FreeSquare, Passing;
      StartOnCorridor(g, nodes, p, walks[k]);
      e := FirstWalkIsEdge(g, order, edges, walks, p, k);
    }
  }

  /** A corridor that is still free was not offered before. */
  lemma NotLate(g: Grid, order: seq<Cell>, walks: seq<seq<Cell>>, p: seq<Cell>, k: nat)
    requires Extracted(g, order) && IsTrace(g, order, walks) && k < |walks| && |walks[k]| >= 2
    requires Corridor(g, AsSet(order), p) && Steps(p) !! Taken(walks[..k]) && |p| >= 2
    ensures !EndStepEarlier(p, walks[k])
  {
    hide Scanned, Taken, Steps, Step, Onward, Legal, Earlier;
    var n := |p| - 1;
    CorridorInner(g, order, p);
    WalkPasses(g, order, p);
    PassingSteps(g, order, p, 0);
    StepBack(g, order, p, n - 1);
    FirstUsed(p);
    LastUsed(p);
    StepEnds(p[n], p[n - 1], p[n - 1], p[n]);
    hide Corridor, Passing;
    if Earlier((p[0], p[1]), (walks[k][0], walks[k][1])) {
      EarlierIsTaken(g, order, walks, k, p[0], p[1]);
      assert false;
    }
    if Earlier((p[n], p[n - 1]), (walks[k][0], walks[k][1])) {
      EarlierIsTaken(g, order, walks, k, p[n], p[n - 1]);
      assert false;
    }
  }

  /** Between extracted node cells a corridor becomes an edge exactly when it can be
      walked both ways, and the edge then is that corridor. */
  lemma {:induction false} EdgeExactlyWhenTwoWay(g: Grid, order: seq<Cell>, edges: seq<Edge>, p: seq<Cell>)
    requires Extracted(g, order) && CorridorGraph(g, order, edges) && Corridor(g, AsSet(order), p)
    ensures (exists e :: EdgeTakes(edges, e, Steps(p))) <==> Corridor(g, AsSet(order), Reversed(p))
    ensures forall e :: EdgeTakes(edges, e, Steps(p)) ==> edges[e].path == p || edges[e].path == Reversed(p)
  {
    hide MadeOf, IsTrace, Reversed, Taken, Steps, Step, Corridor;
    var nodes := AsSet(order);
    CorridorLength(g, nodes, p);
    SameSteps(p);
    if Corridor(g, nodes, Reversed(p)) {
      var e := TwoWayIsOneEdge(g, order, edges, p);
      assert EdgeTakes(edges, e, Steps(p));
    }
    forall e | EdgeTakes(edges, e, Steps(p))
      ensures Corridor(g, nodes, Reversed(p)) && (edges[e].path == p || edges[e].path == Reversed(p))
    {
      EdgeIsTwoWay(g, order, edges, p, e);
    }
  }

  lemma {:induction false} EdgeIsTwoWay(g: Grid, order: seq<Cell>, edges: seq<Edge>, p: seq<Cell>, e: int)
    requires Extracted(g, order) && CorridorGraph(g, order, edges) && Corridor(g, AsSet(order), p)
    requires EdgeTakes(edges, e, Steps(p))
    ensures Corridor(g, AsSet(order), Reversed(p)) && (edges[e].path == p || edges[e].path == Reversed(p))
  {
    hide MadeOf, Scanned, Arrivals, Taken, Steps, Step, Onward, Legal, MakeEdge;
    var nodes := AsSet(order);
    var walks :| IsTrace(g, order, walks) && MadeOf(order, edges, Arrivals(nodes, walks));
    var k := EdgeIsWalk(g, order, edges, walks, e);
    var w := walks[k];
    ScannedWalks(g, nodes, Leaving(g, order), walks);
    assert NextWalk(g, nodes, Taken(walks[..k]), w);
    hide Walk, Stopped;
    TracedIsTwoWay(g, order, walks, k);
    CorridorLength(g, nodes, p);
    FirstUsed(p);
    StartOnCorridor(g, nodes, w, p);
    var n, r := |w| - 1, Reversed(w);
    assert r[0] == w[n] && r[1] == w[n - 1] && |r| == |w|;
    if p[0] == w[0] && p[1] == w[1] {
      CorridorUnique(g, nodes, p, w);
    } else {
      CorridorUnique(g, nodes, p, r);
      assert Reversed(p) == w;
    }
    EdgePath(order, e + 1, w, p);
  }

  /** Only inside one free block of four cells can a corridor have no way back. */
  lemma {:induction false} OneWayStaysInSquare(g: Grid, order: seq<Cell>, p: seq<Cell>) returns (t: Cell)
    requires Extracted(g, order) && Corridor(g, AsSet(order), p) && !Corridor(g, AsSet(order), Reversed(p))
    ensures FreeSquare(g, t) && forall k :: 0 <= k < |p| ==> InSquare(t, p[k])
    ensures |p| <= 5
  {
    hide Extracted, Corridor, Unbranched, FreeSquare, InSquare, Reversed;
    if Unbranched(g, p) {
      UnbranchedIsTwoWay(g, AsSet(order), p);
      assert false;
    }
    t := BranchedInSquare(g, order, p);
    ShortInSquare(g, order, t, p);
  }

  /** Nodes and edges of a grid. */
  method Extract(g: Grid, unknown: set<Cell>, width: nat, height: nat)
    returns (order: seq<Cell>, kinds: map<Cell, NodeKind>, edges: seq<Edge>)
    requires forall c :: c in g ==> 0 <= c.x < width && 0 <= c.y < height
    ensures NodesOf(g, unknown, order, kinds) && Extracted(g, order)
    ensures CorridorGraph(g, order, edges)
  {
    order, kinds := ExtractNodes(g, unknown, width, height);
    NodesAreExtracted(g, unknown, order, kinds);
    ExtractedIsFree(g, order);
    hide NodesOf, Extracted, CorridorGraph;
    edges := TraceEdges(g, order);
  }

  // ------------------------------------------------- a corridor with no way back

  const TL := Cell(0, 0)
  const TR := Cell(1, 0)
  const BL := Cell(0, 1)
  const BR := Cell(1, 1)

  /** Four free cells; the first is the anchor, and from it a corridor leads by the
      opposite corner back to it. */
  const BLOCK: Grid := {TL, TR, BL, BR}
  const ROUND: seq<Cell> := [TL, BR, TR, TL]

  lemma BlockIsPlain(c: Cell)
    requires c in BLOCK
    ensures Plain(BLOCK, c) && Event(BLOCK, {}, c).None?
  {
    assert Degree(BLOCK, c) == 2;
    assert !AtFrontier({}, c);
    hide Degree, AtFrontier;
  }

  lemma BlockNodes()
    ensures NodesOf(BLOCK, {}, [TL], map[TL := Anchor])
  {
    forall c | c in BLOCK ensures Event(BLOCK, {}, c).None? && RowMajor(TL, c) { BlockIsPlain(c); }
    assert TL in BLOCK;
    hide Event, RowMajor;
  }

  lemma RoundOnward()
    ensures Onward(BLOCK, TL, BR) == Some(TR) && Onward(BLOCK, BR, TR) == Some(TL) && Onward(BLOCK, TL, TR) == Some(BL)
  {
    BlockIsPlain(BR);
    BlockIsPlain(TR);
    assert FreeSquare(BLOCK, TL) && InSquare(TL, TR) && InSquare(TL, BL) && InSquare(TL, BR) && InSquare(TL, TL);
    hide Onward, Plain, FreeSquare, Event;
    var n := CornerOnward(BLOCK, TL, TL, BR);
    var m := CornerOnward(BLOCK, TL, BR, TR);
    var back := CornerOnward(BLOCK, TL, TL, TR);
    assert InSquare(TL, TR) && Place(TL, TR) == Least(Place(TL, TL), Place(TL, BR));
    assert InSquare(TL, TL) && Place(TL, TL) == Least(Place(TL, BR), Place(TL, TR));
    assert InSquare(TL, BL) && Place(TL, BL) == Least(Place(TL, TL), Place(TL, TR));
  }

  lemma RoundWalk()
    ensures Corridor(BLOCK, AsSet([TL]), ROUND)
  {
    RoundOnward();
    assert Legal(BLOCK, TL, BR) && Legal(BLOCK, BR, TR) && Legal(BLOCK, TR, TL) && TL in BLOCK;
    hide Onward, Legal;
    assert LegalAt(BLOCK, ROUND, 0) && LegalAt(BLOCK, ROUND, 1) && LegalAt(BLOCK, ROUND, 2);
    assert PassesAt(BLOCK, AsSet([TL]), ROUND, 1) && PassesAt(BLOCK, AsSet([TL]), ROUND, 2);
    hide LegalAt, PassesAt;
    RoundSteps();
    hide SimpleSteps;
  }

  lemma RoundSteps()
    ensures SimpleSteps(ROUND)
  {
    assert StepAt(ROUND, 0) == Step(TL, BR) && StepAt(ROUND, 1) == Step(BR, TR) && StepAt(ROUND, 2) == Step(TR, TL);
  }

  lemma RoundIsOneWay()
    ensures Corridor(BLOCK, AsSet([TL]), ROUND) && !Corridor(BLOCK, AsSet([TL]), Reversed(ROUND))
  {
    RoundWalk();
    RoundOnward();
    hide Onward, Corridor, Reversed;
    assert ROUND[3] == TL && ROUND[2] == TR && ROUND[1] == BR && BR != BL;
    assert !TurnsBack(BLOCK, ROUND, 2);
    hide TurnsBack;
    TwoWayIffTurnsBack(BLOCK, AsSet([TL]), ROUND);
  }

  /** A corridor that cannot be walked back is no edge: an extracted grid on which a
      walk from node to node leaves no edge. */
  lemma OneWayIsNoEdge()
    ensures exists g: Grid, order: seq<Cell>, kinds: map<Cell, NodeKind>, edges: seq<Edge>, p: seq<Cell> ::
      && NodesOf(g, {}, order, kinds) && CorridorGraph(g, order, edges) && Corridor(g, AsSet(order), p)
      && forall e :: !EdgeTakes(edges, e, Steps(p))
  {
    hide *;
    BlockNodes();
    RoundIsOneWay();
    NodesAreExtracted(BLOCK, {}, [TL], map[TL := Anchor]);
    ExtractedIsFree(BLOCK, [TL]);
    var edges := GraphExists(BLOCK, [TL]);
    EdgeExactlyWhenTwoWay(BLOCK, [TL], edges, ROUND);
    assert forall e :: !EdgeTakes(edges, e, Steps(ROUND));
  }

  lemma ExtractedIsFree(g: Grid, order: seq<Cell>)
    requires Extracted(g, order)
    ensures forall c :: c in order ==> c in g
  {
  }
}
