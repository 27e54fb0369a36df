/** From measured rays to grid cells: a ray is sampled at half the resolution and
    every cell is listed once per visit. */
module RaySampling {
  import opened Arithmetic
  import opened Occupancy

  datatype Point = Point(x: real, y: real)

  datatype Grid = Grid(originX: real, originY: real, resolution: real, width: nat, height: nat)

  predicate ValidGrid(g: Grid) { g.resolution > 0.0 && g.width > 0 && g.height > 0 }

  /** One measured ray in the mapper's frame. */
  datatype Reading = Reading(origin: Point, endpoint: Point, stamp: real, kind: Kind, hit: bool)

  function Column(g: Grid, p: Point): int
    requires ValidGrid(g)
  {
    ((p.x - g.originX) / g.resolution).Floor
  }

  function Row(g: Grid, p: Point): int
    requires ValidGrid(g)
  {
    ((p.y - g.originY) / g.resolution).Floor
  }

  /** The cell a point lies in, numbered row by row. */
  function CellOf(g: Grid, p: Point): Endpoint
    requires ValidGrid(g)
  {
    var ix, iy := Column(g, p), Row(g, p);
    if 0 <= ix < g.width && 0 <= iy < g.height then Inside(iy * g.width + ix) else Outside
  }

  /** Least integer not below x. */
  function Ceiling(x: real): int { -(-x).Floor }

  function StepCount(g: Grid, distance: real): (n: nat)
    requires ValidGrid(g)
    ensures n >= 1
  {
    var n := Ceiling(distance / (g.resolution * 0.5));
    if n >= 1 then n else 1
  }

  /** The i-th of n equal fractions of the way, in one coordinate and in both. */
  function Along(a: real, b: real, i: nat, n: nat): real
    requires n > 0
  {
    a + (b - a) * (i as real / n as real)
  }

  function Sample(a: Point, b: Point, i: nat, n: nat): Point
    requires n > 0
  {
    Point(Along(a.x, b.x, i, n), Along(a.y, b.y, i, n))
  }

  /** Cells of the samples before the k-th, repeated ones listed once. */
  function SampledCells(g: Grid, a: Point, b: Point, n: nat, k: nat): seq<nat>
    requires ValidGrid(g) && n > 0
  {
    if k == 0 then []
    else
      var cells := SampledCells(g, a, b, n, k - 1);
      var cell := CellOf(g, Sample(a, b, k - 1, n));
      if cell.Inside? && (cells == [] || cells[|cells| - 1] != cell.cell) then cells + [cell.cell] else cells
  }

  function RayCells(g: Grid, h: (real, real) -> real, a: Point, b: Point): seq<nat>
    requires ValidGrid(g)
  {
    var distance := h(b.x - a.x, b.y - a.y);
    if distance == 0.0 then []
    else var n := StepCount(g, distance); SampledCells(g, a, b, n, n + 1)
  }

  function ToRay(g: Grid, h: (real, real) -> real, r: Reading): Ray
    requires ValidGrid(g)
  {
    Ray(r.kind, r.hit, r.stamp, RayCells(g, h, r.origin, r.endpoint), CellOf(g, r.endpoint))
  }

  function ToRays(g: Grid, h: (real, real) -> real, scan: seq<Reading>): (rays: seq<Ray>)
    requires ValidGrid(g)
    ensures |rays| == |scan| && forall i :: 0 <= i < |scan| ==> rays[i] == ToRay(g, h, scan[i])
  {
    if scan == [] then [] else [ToRay(g, h, scan[0])] + ToRays(g, h, scan[1..])
  }

  // -------------------------------------------------------------- properties

  lemma FloorContains(u: real, origin: real, resolution: real, k: int)
    requires resolution > 0.0
    ensures ((u - origin) / resolution).Floor == k <==>
            origin + k as real * resolution <= u < origin + (k + 1) as real * resolution
  {
    QuotientBelow(k as real, u - origin, resolution);
    QuotientBelow((k + 1) as real, u - origin, resolution);
    var q := (u - origin) / resolution;
    assert q.Floor == k <==> k as real <= q && !((k + 1) as real <= q);
  }

  lemma QuotientBelow(lower: real, x: real, d: real)
    requires d > 0.0
    ensures lower <= x / d <==> lower * d <= x
  {
    DivisionOrder(-x, -lower, d);
    assert (-x) / d == -(x / d);
    assert -lower * d == -(lower * d);
  }

  /** The cell of a point is the one whose square contains it, numbered row by row. */
  lemma CellExactly(g: Grid, p: Point, column: nat, row: nat)
    requires ValidGrid(g) && column < g.width && row < g.height
    ensures CellOf(g, p) == Inside(row * g.width + column) <==>
              && g.originX + column as real * g.resolution <= p.x < g.originX + (column + 1) as real * g.resolution
              && g.originY + row as real * g.resolution <= p.y < g.originY + (row + 1) as real * g.resolution
  {
    FloorContains(p.x, g.originX, g.resolution, column);
    FloorContains(p.y, g.originY, g.resolution, row);
    var ix, iy := Column(g, p), Row(g, p);
    if 0 <= ix < g.width && 0 <= iy < g.height && iy * g.width + ix == row * g.width + column {
      SameNumber(iy, ix, row, column, g.width);
    }
  }

  /** The steps are the fewest, at least one, that are no longer than half a cell. */
  lemma StepsExactly(g: Grid, distance: real)
    requires ValidGrid(g)
    ensures var n, half := StepCount(g, distance), g.resolution * 0.5;
            && distance <= n as real * half
            && (n > 1 ==> distance > (n - 1) as real * half)
  {
    var n, half := StepCount(g, distance), g.resolution * 0.5;
    DivisionOrder(distance, n as real, half);
    DivisionOrder(distance, (n - 1) as real, half);
    var q := distance / half;
    assert q <= n as real && (n > 1 ==> q > (n - 1) as real);
  }

  /** The samples go from the origin to the endpoint in equal steps. */
  lemma SamplesExactly(a: real, b: real, i: nat, n: nat)
    requires n > 0
    ensures Along(a, b, 0, n) == a && Along(a, b, n, n) == b
    ensures n as real * (Along(a, b, i + 1, n) - Along(a, b, i, n)) == b - a
  {
    var m := n as real;
    assert m / m == 1.0 && 0.0 / m == 0.0;
    var f, h := i as real / m, (i + 1) as real / m;
    assert f * m == i as real && h * m == (i + 1) as real;
    assert m * ((b - a) * h - (b - a) * f) == (b - a) * (h * m) - (b - a) * (f * m);
  }

  lemma CellInGrid(g: Grid, p: Point)
    requires ValidGrid(g)
    ensures CellOf(g, p).Inside? ==> CellOf(g, p).cell < g.width * g.height
  {
    hide Column, Row;
    var ix, iy := Column(g, p), Row(g, p);
    if 0 <= ix < g.width && 0 <= iy < g.height { RowFits(iy, g.height, g.width); }
  }

  lemma RowFits(row: nat, height: nat, width: nat)
    requires row < height
    ensures row * width + width <= height * width
  {
    var above: nat := height - row - 1;
    assert height == row + 1 + above && above * width >= 0;
    assert (row + 1 + above) * width == row * width + width + above * width;
  }

  lemma {:induction false} SampledInGrid(g: Grid, a: Point, b: Point, n: nat, k: nat)
    requires ValidGrid(g) && n > 0
    ensures forall c :: c in SampledCells(g, a, b, n, k) ==> c < g.width * g.height
  {
    hide CellOf;
    if k > 0 {
      SampledInGrid(g, a, b, n, k - 1);
      CellInGrid(g, Sample(a, b, k - 1, n));
    }
  }

  // ------------------------------------------------------- each cell once

  lemma FractionOrder(i: nat, j: nat, n: nat)
    requires i <= j && n > 0
    ensures i as real / n as real <= j as real / n as real
  {
    DivisionOrder(i as real, j as real / n as real, n as real);
  }

  /** Samples move one way in each coordinate. */
  lemma AlongOrder(a: real, b: real, i: nat, j: nat, n: nat)
    requires i <= j && n > 0
    ensures a <= b ==> Along(a, b, i, n) <= Along(a, b, j, n)
    ensures a >= b ==> Along(a, b, i, n) >= Along(a, b, j, n)
  {
    FractionOrder(i, j, n);
    var gap := j as real / n as real - i as real / n as real;
    assert Along(a, b, j, n) - Along(a, b, i, n) == (b - a) * gap;
    TimesSign(b - a, gap);
    TimesSign(a - b, gap);
    assert (a - b) * gap == -((b - a) * gap);
  }

  lemma FloorOrder(u: real, v: real, origin: real, resolution: real)
    requires u <= v && resolution > 0.0
    ensures ((u - origin) / resolution).Floor <= ((v - origin) / resolution).Floor
  {
    DivisionOrder(u - origin, (v - origin) / resolution, resolution);
  }

  /** So do the columns and rows of the samples. */
  lemma BetweenSamples(g: Grid, a: Point, b: Point, n: nat, i: nat, l: nat, j: nat)
    requires ValidGrid(g) && n > 0 && i <= l <= j
    requires Column(g, Sample(a, b, i, n)) == Column(g, Sample(a, b, j, n))
    requires Row(g, Sample(a, b, i, n)) == Row(g, Sample(a, b, j, n))
    ensures Column(g, Sample(a, b, l, n)) == Column(g, Sample(a, b, i, n))
    ensures Row(g, Sample(a, b, l, n)) == Row(g, Sample(a, b, i, n))
  {
    BetweenFloors(a.x, b.x, n, i, l, j, g.originX, g.resolution);
    BetweenFloors(a.y, b.y, n, i, l, j, g.originY, g.resolution);
    hide Along;
  }

  lemma BetweenFloors(a: real, b: real, n: nat, i: nat, l: nat, j: nat, origin: real, resolution: real)
    requires n > 0 && i <= l <= j && resolution > 0.0
    requires ((Along(a, b, i, n) - origin) / resolution).Floor == ((Along(a, b, j, n) - origin) / resolution).Floor
    ensures ((Along(a, b, l, n) - origin) / resolution).Floor == ((Along(a, b, i, n) - origin) / resolution).Floor
  {
    AlongOrder(a, b, i, l, n);
    AlongOrder(a, b, l, j, n);
    var u, v, w := Along(a, b, i, n), Along(a, b, l, n), Along(a, b, j, n);
    hide Along;
    if a <= b {
      FloorOrder(u, v, origin, resolution);
      FloorOrder(v, w, origin, resolution);
    } else {
      FloorOrder(v, u, origin, resolution);
      FloorOrder(w, v, origin, resolution);
    }
  }

  lemma SameNumber(row: nat, column: nat, row': nat, column': nat, width: nat)
    requires column < width && column' < width && row * width + column == row' * width + column'
    ensures row == row' && column == column'
  {
    if row < row' { RowFits(row, row', width); }
    if row' < row { RowFits(row', row, width); }
    assert row == row';
  }

  /** Between two samples in one cell all samples lie in that cell. */
  lemma SandwichedCell(g: Grid, a: Point, b: Point, n: nat, i: nat, l: nat, j: nat)
    requires ValidGrid(g) && n > 0 && i <= l <= j
    requires CellOf(g, Sample(a, b, i, n)).Inside? && CellOf(g, Sample(a, b, i, n)) == CellOf(g, Sample(a, b, j, n))
    ensures CellOf(g, Sample(a, b, l, n)) == CellOf(g, Sample(a, b, i, n))
  {
    var p, q := Sample(a, b, i, n), Sample(a, b, j, n);
    hide Sample, Column, Row;
    SameNumber(Row(g, p), Column(g, p), Row(g, q), Column(g, q), g.width);
    BetweenSamples(g, a, b, n, i, l, j);
  }

  ghost predicate SampledAt(g: Grid, a: Point, b: Point, n: nat, i: nat, cell: nat)
    requires ValidGrid(g) && n > 0
  {
    CellOf(g, Sample(a, b, i, n)) == Inside(cell)
  }

  /** The last sample before the k-th that lies in the grid is the l-th, in that cell. */
  ghost predicate LastInside(g: Grid, a: Point, b: Point, n: nat, k: nat, l: nat, cell: nat)
    requires ValidGrid(g) && n > 0
  {
    l < k && SampledAt(g, a, b, n, l, cell) && forall i: nat, c :: l < i < k ==> !SampledAt(g, a, b, n, i, c)
  }

  ghost predicate SampledBefore(g: Grid, a: Point, b: Point, n: nat, k: nat, cell: nat)
    requires ValidGrid(g) && n > 0
  {
    exists i: nat :: i < k && SampledAt(g, a, b, n, i, cell)
  }

  ghost predicate LastSampled(g: Grid, a: Point, b: Point, n: nat, k: nat, cell: nat)
    requires ValidGrid(g) && n > 0
  {
    exists l: nat :: LastInside(g, a, b, n, k, l, cell)
  }

  /** Every listed cell stems from a sample, and the last one from the last sample
      inside the grid. */
  lemma {:induction false} ListedFromSamples(g: Grid, a: Point, b: Point, n: nat, k: nat)
    requires ValidGrid(g) && n > 0
    ensures forall c :: c in SampledCells(g, a, b, n, k) ==> SampledBefore(g, a, b, n, k, c)
    ensures var cells := SampledCells(g, a, b, n, k);
            cells != [] ==> LastSampled(g, a, b, n, k, cells[|cells| - 1])
  {
    hide CellOf, Sample;
    if k > 0 {
      var m: nat := k - 1;
      ListedFromSamples(g, a, b, n, m);
      var before, cells := SampledCells(g, a, b, n, m), SampledCells(g, a, b, n, k);
      var cell := CellOf(g, Sample(a, b, m, n));
      if cell.Inside? { assert SampledAt(g, a, b, n, m, cell.cell); }
      forall c | c in cells ensures SampledBefore(g, a, b, n, k, c) {
        if c in before { assert SampledBefore(g, a, b, n, m, c); }
      }
      if cell.Inside? {
        assert LastInside(g, a, b, n, k, m, cell.cell);
      } else if before != [] {
        var last := before[|before| - 1];
        var l: nat :| LastInside(g, a, b, n, m, l, last);
        assert LastInside(g, a, b, n, k, l, last);
      }
    }
  }

  /** The listed cells are exactly those of the samples inside the grid. */
  lemma {:induction false} ListedExactly(g: Grid, a: Point, b: Point, n: nat, k: nat, cell: nat)
    requires ValidGrid(g) && n > 0
    ensures cell in SampledCells(g, a, b, n, k) <==> exists i: nat :: i < k && SampledAt(g, a, b, n, i, cell)
  {
    ListedFromSamples(g, a, b, n, k);
    if cell in SampledCells(g, a, b, n, k) { assert SampledBefore(g, a, b, n, k, cell); }
    if i: nat :| i < k && SampledAt(g, a, b, n, i, cell) { SampleIsListed(g, a, b, n, k, i, cell); }
  }

  lemma {:induction false} SampleIsListed(g: Grid, a: Point, b: Point, n: nat, k: nat, i: nat, cell: nat)
    requires ValidGrid(g) && n > 0 && i < k && SampledAt(g, a, b, n, i, cell)
    ensures cell in SampledCells(g, a, b, n, k)
  {
    hide CellOf, Sample;
    if i < k - 1 { SampleIsListed(g, a, b, n, k - 1, i, cell); }
  }

  /** No cell twice. */
  ghost predicate DistinctCells(cells: seq<nat>) {
    forall i, j :: 0 <= i < j < |cells| ==> cells[i] != cells[j]
  }

  /** A ray lists every cell it crosses once. */
  lemma {:induction false} NeverRepeats(g: Grid, a: Point, b: Point, n: nat, k: nat)
    requires ValidGrid(g) && n > 0
    ensures DistinctCells(SampledCells(g, a, b, n, k))
  {
    hide CellOf, Sample;
    if k > 0 {
      var m: nat := k - 1;
      NeverRepeats(g, a, b, n, m);
      ListedFromSamples(g, a, b, n, m);
      var before := SampledCells(g, a, b, n, m);
      var cell := CellOf(g, Sample(a, b, m, n));
      if cell.Inside? && cell.cell in before {
        var last := before[|before| - 1];
        assert SampledBefore(g, a, b, n, m, cell.cell);
        var i: nat :| i < m && SampledAt(g, a, b, n, i, cell.cell);
        var l: nat :| LastInside(g, a, b, n, m, l, last);
        SandwichedCell(g, a, b, n, i, l, m);
        assert last == cell.cell;
      }
    }
  }

  lemma {:induction false} FreeSumOnce(cells: seq<nat>, c: nat, free: real)
    requires DistinctCells(cells)
    ensures FreeSum(cells, c, free) == if c in cells then free else 0.0
  {
    if cells != [] {
      var n := |cells| - 1;
      assert cells == cells[..n] + [cells[n]];
      FreeSumOnce(cells[..n], c, free);
    }
  }

  lemma RayCellsDistinct(g: Grid, h: (real, real) -> real, a: Point, b: Point)
    requires ValidGrid(g)
    ensures DistinctCells(RayCells(g, h, a, b))
  {
    hide StepCount, SampledCells;
    var distance := h(b.x - a.x, b.y - a.y);
    if distance != 0.0 { NeverRepeats(g, a, b, StepCount(g, distance), StepCount(g, distance) + 1); }
  }

  /** A sampled ray only names cells of the grid. */
  lemma RayFits(g: Grid, h: (real, real) -> real, r: Reading, c: Config)
    requires ValidGrid(g) && c.size == g.width * g.height
    ensures Fits(ToRay(g, h, r), c)
  {
    hide CellOf, SampledCells, StepCount;
    CellInGrid(g, r.endpoint);
    var distance := h(r.endpoint.x - r.origin.x, r.endpoint.y - r.origin.y);
    if distance != 0.0 {
      SampledInGrid(g, r.origin, r.endpoint, StepCount(g, distance), StepCount(g, distance) + 1);
    }
  }

  lemma LastSample(a: Point, b: Point, n: nat)
    requires n > 0
    ensures Sample(a, b, n, n) == b
  {
    assert n as real / n as real == 1.0;
  }

  /** A ray of positive length that ends inside the grid ends with its endpoint's
      cell, so a return takes exactly that last cell out of the crossed ones. */
  lemma EndsAtEndpoint(g: Grid, h: (real, real) -> real, r: Reading)
    requires ValidGrid(g) && h(r.endpoint.x - r.origin.x, r.endpoint.y - r.origin.y) != 0.0
    requires CellOf(g, r.endpoint).Inside?
    ensures var cells := RayCells(g, h, r.origin, r.endpoint);
            && cells != [] && cells[|cells| - 1] == CellOf(g, r.endpoint).cell
            && (r.hit ==> FreeCells(ToRay(g, h, r)) == cells[..|cells| - 1])
  {
    hide CellOf, StepCount;
    var n := StepCount(g, h(r.endpoint.x - r.origin.x, r.endpoint.y - r.origin.y));
    LastSample(r.origin, r.endpoint, n);
    hide Sample;
  }

  /** A static ray says one thing about each cell: occupied where it returned from,
      free, once, for every other cell it crosses, and nothing elsewhere. */
  lemma RayVotesOnce(g: Grid, h: (real, real) -> real, r: Reading, c: nat, config: Config)
    requires ValidGrid(g) && r.kind.Static?
    ensures var ray := ToRay(g, h, r);
            RayEvidence(ray, c, config).staticOdds ==
              if Hits(ray, c) then config.occupied else if c in ray.cells then config.free else 0.0
  {
    var ray := ToRay(g, h, r);
    RayCellsDistinct(g, h, r.origin, r.endpoint);
    if r.hit && CellOf(g, r.endpoint).Inside? && h(r.endpoint.x - r.origin.x, r.endpoint.y - r.origin.y) != 0.0 {
      EndsAtEndpoint(g, h, r);
    }
    hide CellOf, StepCount, SampledCells;
    FreeSumOnce(FreeCells(ray), c, config.free);
  }

  /** A sampled ray keeps kind, return and stamp of its reading, ends at its endpoint's
      cell and crosses exactly the cells of its samples; a reading without length crosses
      none. */
  lemma RayExactly(g: Grid, h: (real, real) -> real, r: Reading, c: nat)
    requires ValidGrid(g)
    ensures var ray, distance := ToRay(g, h, r), h(r.endpoint.x - r.origin.x, r.endpoint.y - r.origin.y);
            var n := StepCount(g, distance);
            && ray.kind == r.kind && ray.hit == r.hit && ray.stamp == r.stamp && ray.endpoint == CellOf(g, r.endpoint)
            && (c in ray.cells <==>
                 distance != 0.0 && exists i: nat :: i <= n && SampledAt(g, r.origin, r.endpoint, n, i, c))
  {
    hide CellOf, StepCount, SampledCells, SampledAt;
    var n := StepCount(g, h(r.endpoint.x - r.origin.x, r.endpoint.y - r.origin.y));
    ListedExactly(g, r.origin, r.endpoint, n, n + 1, c);
  }

  lemma StepsSuffice(distance: real, half: real, n: nat)
    requires half > 0.0 && n >= 1 && n >= Ceiling(distance / half)
    ensures distance <= n as real * half
  {
    var q := distance / half;
    assert q <= n as real;
    assert q * half == distance;
    assert (n as real - q) * half >= 0.0;
  }

  lemma CoordinateStep(d: real, i: nat, n: nat, half: real)
    requires n > 0 && Abs(d) <= n as real * half
    ensures Abs(d * ((i + 1) as real / n as real) - d * (i as real / n as real)) <= half
  {
    var m := n as real;
    var f, g := i as real / m, (i + 1) as real / m;
    assert f * m == i as real && g * m == (i + 1) as real;
    var step := d * g - d * f;
    assert step * m == d * (g * m) - d * (f * m) == d;
    if step > half { assert (step - half) * m > 0.0; }
    if -step > half { assert (-step - half) * m > 0.0; }
  }

  lemma FloorStep(x: real, y: real)
    requires Abs(y - x) <= 1.0
    ensures -1 <= y.Floor - x.Floor <= 1
  {
  }

  lemma ScaledStep(u: real, v: real, origin: real, resolution: real)
    requires resolution > 0.0 && Abs(v - u) <= resolution * 0.5
    ensures Abs((v - origin) / resolution - (u - origin) / resolution) <= 1.0
  {
    var x, y := (u - origin) / resolution, (v - origin) / resolution;
    assert x * resolution == u - origin && y * resolution == v - origin;
    assert (y - x) * resolution == v - u;
    if y - x > 1.0 { assert (y - x - 1.0) * resolution > 0.0; }
    if x - y > 1.0 { assert (x - y - 1.0) * resolution > 0.0; }
  }

  /** A norm is at least either coordinate. */
  lemma NormBounds(h: (real, real) -> real, x: real, y: real)
    requires IsHypot(h)
    ensures Abs(x) <= h(x, y) && Abs(y) <= h(x, y)
  {
    var l := h(x, y);
    assert x * x >= 0.0 && y * y >= 0.0 by { TimesSign(Abs(x), Abs(x)); TimesSign(Abs(y), Abs(y)); }
    assert Abs(x) * Abs(x) == x * x && Abs(y) * Abs(y) == y * y;
    SquareReflects(Abs(x), l);
    SquareReflects(Abs(y), l);
  }

  lemma CoordinateClose(a: real, b: real, i: nat, n: nat, origin: real, resolution: real)
    requires n > 0 && resolution > 0.0 && Abs(b - a) <= n as real * (resolution * 0.5)
    ensures var u, v := Along(a, b, i, n), Along(a, b, i + 1, n);
            -1 <= ((v - origin) / resolution).Floor - ((u - origin) / resolution).Floor <= 1
  {
    CoordinateStep(b - a, i, n, resolution * 0.5);
    var u, v := Along(a, b, i, n), Along(a, b, i + 1, n);
    assert Abs(v - u) <= resolution * 0.5;
    hide Along;
    ScaledStep(u, v, origin, resolution);
    FloorStep((u - origin) / resolution, (v - origin) / resolution);
  }

  /** Sampling skips nothing: successive samples of a ray lie in the same cell or in
      neighbouring rows and columns. */
  lemma SamplesAreClose(g: Grid, h: (real, real) -> real, a: Point, b: Point, i: nat)
    requires ValidGrid(g) && IsHypot(h)
    ensures var n := StepCount(g, h(b.x - a.x, b.y - a.y));
            var p, q := Sample(a, b, i, n), Sample(a, b, i + 1, n);
            -1 <= Column(g, q) - Column(g, p) <= 1 && -1 <= Row(g, q) - Row(g, p) <= 1
  {
    var n := EnoughSteps(g, h, a, b);
    CoordinateClose(a.x, b.x, i, n, g.originX, g.resolution);
    CoordinateClose(a.y, b.y, i, n, g.originY, g.resolution);
    hide StepCount, IsHypot, Along;
  }

  lemma EnoughSteps(g: Grid, h: (real, real) -> real, a: Point, b: Point) returns (n: nat)
    requires ValidGrid(g) && IsHypot(h)
    ensures n == StepCount(g, h(b.x - a.x, b.y - a.y))
    ensures Abs(b.x - a.x) <= n as real * (g.resolution * 0.5) && Abs(b.y - a.y) <= n as real * (g.resolution * 0.5)
  {
    var distance := h(b.x - a.x, b.y - a.y);
    n := StepCount(g, distance);
    NormBounds(h, b.x - a.x, b.y - a.y);
    StepsSuffice(distance, g.resolution * 0.5, n);
    hide IsHypot;
  }

  /** Applies a scan of measured rays to the mapper, or nothing when it is refused
      or empty. */
  method UpdateScan(mapper: OccupancyMapper, g: Grid, h: (real, real) -> real, scan: seq<Reading>)
    returns (refusal: Refusal)
    requires mapper.Valid() && ValidGrid(g) && mapper.config.size == g.width * g.height
    modifies mapper
    ensures mapper.Valid()
    ensures refusal == UpdateRefusal(old(mapper.Abs()), ToRays(g, h, scan), mapper.config)
    ensures mapper.Abs() == Update(old(mapper.Abs()), ToRays(g, h, scan), mapper.config)
  {
    var rays := ToRays(g, h, scan);
    forall r | r in rays ensures Fits(r, mapper.config) {
      var i :| 0 <= i < |rays| && rays[i] == r;
      RayFits(g, h, scan[i], mapper.config);
    }
    refusal := mapper.UpdateBatch(rays);
  }
}
