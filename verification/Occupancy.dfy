/** The layered occupancy mapper: one batch of rays changes all layers at once,
    dynamic evidence decays.  A ray carries the cells it crosses and the cell of its
    endpoint, numbered row by row; RaySampling computes them from a measured ray.
    Log-odds are exact reals. */
module Occupancy {
  import opened Arithmetic

  datatype Kind = Static | Dynamic

  datatype Endpoint = Outside | Inside(cell: nat)

  datatype Ray = Ray(kind: Kind, hit: bool, stamp: real, cells: seq<nat>, endpoint: Endpoint)

  datatype Config = Config(
    size: nat, free: real, occupied: real, freeThreshold: real, occupiedThreshold: real,
    maxLogOdds: real, maxBatch: real, maxRays: nat)

  /** Probabilities straddle one half and the bounds are positive. */
  predicate LegalConfig(g: Config) {
    && g.size > 0 && g.free < 0.0 < g.occupied && g.freeThreshold < 0.0 <= g.occupiedThreshold
    && g.maxLogOdds > 0.0 && g.maxBatch > 0.0 && g.maxRays > 0
  }

  predicate Fits(r: Ray, g: Config) {
    (forall c :: c in r.cells ==> c < g.size) && (r.endpoint.Inside? ==> r.endpoint.cell < g.size)
  }

  datatype Layers = Layers(
    staticOdds: seq<real>, dynamicOdds: seq<real>, observedFree: seq<bool>,
    lastObserved: seq<real>, lastDynamic: seq<real>, stamp: real, version: nat)

  predicate Shaped(l: Layers, g: Config) {
    && |l.staticOdds| == |l.dynamicOdds| == |l.observedFree| == g.size
    && |l.lastObserved| == |l.lastDynamic| == g.size
  }

  function Empty(g: Config): Layers {
    var zeros := seq(g.size, _ => 0.0);
    Layers(zeros, zeros, seq(g.size, _ => false), zeros, zeros, 0.0, 0)
  }

  // ---------------------------------------------------------- batch evidence

  /** What a ray, or a batch of rays, says about one cell. */
  datatype Evidence = Evidence(staticOdds: real, dynamicOdds: real, free: bool, seen: real, struck: real)

  const NOTHING := Evidence(0.0, 0.0, false, 0.0, 0.0)

  function Combine(a: Evidence, b: Evidence): Evidence {
    Evidence(a.staticOdds + b.staticOdds, a.dynamicOdds + b.dynamicOdds, a.free || b.free,
             Max(a.seen, b.seen), Max(a.struck, b.struck))
  }

  /** The ray returned from this cell. */
  predicate Hits(r: Ray, c: nat) { r.hit && r.endpoint == Inside(c) }

  /** The crossed cells, without the last one when the ray returned from it. */
  function FreeCells(r: Ray): seq<nat> {
    if r.hit && r.endpoint.Inside? && r.cells != [] && r.cells[|r.cells| - 1] == r.endpoint.cell
    then r.cells[..|r.cells| - 1] else r.cells
  }

  /** One free increment per crossing of the cell. */
  function FreeSum(cells: seq<nat>, c: nat, free: real): real {
    if cells == [] then 0.0
    else FreeSum(cells[..|cells| - 1], c, free) + (if cells[|cells| - 1] == c then free else 0.0)
  }

  function RayEvidence(r: Ray, c: nat, g: Config): Evidence {
    var strike := if Hits(r, c) then g.occupied else 0.0;
    Evidence(
      if r.kind.Static? then strike + FreeSum(FreeCells(r), c, g.free) else 0.0,
      if r.kind.Dynamic? then strike else 0.0,
      c in FreeCells(r),
      if c in r.cells then r.stamp else 0.0,
      if r.kind.Dynamic? && Hits(r, c) then r.stamp else 0.0)
  }

  function Batch(rays: seq<Ray>, c: nat, g: Config): Evidence {
    if rays == [] then NOTHING
    else Combine(Batch(rays[..|rays| - 1], c, g), RayEvidence(rays[|rays| - 1], c, g))
  }

  function Latest(rays: seq<Ray>): real
    requires rays != []
  {
    if |rays| == 1 then rays[0].stamp else Max(Latest(rays[..|rays| - 1]), rays[|rays| - 1].stamp)
  }

  function Clip(x: real, bound: real): real { Max(-bound, Min(bound, x)) }

  /** New log-odds of a cell: the batch's evidence is capped, then the value. */
  function Moved(value: real, delta: real, g: Config): real {
    Clip(value + Clip(delta, g.maxBatch), g.maxLogOdds)
  }

  function Merge(l: Layers, rays: seq<Ray>, g: Config): Layers
    requires Shaped(l, g) && rays != []
  {
    Layers(
      seq(g.size, c requires 0 <= c < g.size => Moved(l.staticOdds[c], Batch(rays, c, g).staticOdds, g)),
      seq(g.size, c requires 0 <= c < g.size => Moved(l.dynamicOdds[c], Batch(rays, c, g).dynamicOdds, g)),
      seq(g.size, c requires 0 <= c < g.size => l.observedFree[c] || Batch(rays, c, g).free),
      seq(g.size, c requires 0 <= c < g.size => Max(l.lastObserved[c], Batch(rays, c, g).seen)),
      seq(g.size, c requires 0 <= c < g.size => Max(l.lastDynamic[c], Batch(rays, c, g).struck)),
      Latest(rays), l.version + 1)
  }

  datatype Refusal = Accepted | TooManyRays | TimeMovedBack

  function UpdateRefusal(l: Layers, rays: seq<Ray>, g: Config): Refusal {
    if |rays| > g.maxRays then TooManyRays
    else if exists i :: 0 <= i < |rays| && rays[i].stamp < l.stamp then TimeMovedBack
    else Accepted
  }

  function Update(l: Layers, rays: seq<Ray>, g: Config): Layers
    requires Shaped(l, g)
  {
    if UpdateRefusal(l, rays, g).Accepted? && rays != [] then Merge(l, rays, g) else l
  }

  /** Decay by the age of the last dynamic hit; e(age) stands for exp(-age/tau). */
  function Decay(l: Layers, now: real, e: real -> real, g: Config): Layers
    requires Shaped(l, g)
  {
    if now < l.stamp then l
    else l.(dynamicOdds := seq(g.size, c requires 0 <= c < g.size =>
                                 Times(l.dynamicOdds[c], e(Max(0.0, now - l.lastDynamic[c])))),
            stamp := now, version := l.version + 1)
  }

  // ---------------------------------------------------------------- snapshot

  datatype Cell = Unknown | ObservedFree | Occupied

  function StateOf(logOdds: real, g: Config): Cell {
    if logOdds >= g.occupiedThreshold then Occupied
    else if logOdds <= g.freeThreshold then ObservedFree else Unknown
  }

  function Structural(l: Layers, c: nat, g: Config): Cell
    requires Shaped(l, g) && c < g.size
  {
    StateOf(l.staticOdds[c], g)
  }

  function Semantic(l: Layers, c: nat, g: Config): Cell
    requires Shaped(l, g) && c < g.size
  {
    StateOf(l.dynamicOdds[c], g)
  }

  function Collision(l: Layers, c: nat, g: Config): Cell
    requires Shaped(l, g) && c < g.size
  {
    var structural, semantic := Structural(l, c, g), Semantic(l, c, g);
    if structural.Occupied? || semantic.Occupied? then Occupied
    else if structural.ObservedFree? && !semantic.Occupied? then ObservedFree
    else Unknown
  }

  // ------------------------------------------------------- the mapper object

  /** Adds one amount to a cell's entry, starting from zero. */
  function Added(m: map<nat, real>, c: nat, x: real): map<nat, real> { m[c := Entry(m, c) + x] }

  function Entry(m: map<nat, real>, c: nat): real { if c in m then m[c] else 0.0 }

  class OccupancyMapper {
    const config: Config
    var staticOdds: seq<real>
    var dynamicOdds: seq<real>
    var observedFree: seq<bool>
    var lastObserved: seq<real>
    var lastDynamic: seq<real>
    var stamp: real
    var version: nat

    ghost function Abs(): Layers
      reads this
    {
      Layers(staticOdds, dynamicOdds, observedFree, lastObserved, lastDynamic, stamp, version)
    }

    ghost predicate Valid()
      reads this
    {
      LegalConfig(config) && Inv(Abs(), config)
    }

    constructor (g: Config)
      requires LegalConfig(g)
      ensures Valid() && config == g && Abs() == Empty(g)
    {
      config := g;
      staticOdds, dynamicOdds := seq(g.size, _ => 0.0), seq(g.size, _ => 0.0);
      observedFree := seq(g.size, _ => false);
      lastObserved, lastDynamic := seq(g.size, _ => 0.0), seq(g.size, _ => 0.0);
      stamp, version := 0.0, 0;
    }

    /** Applies a whole batch, or nothing when it is refused or empty. */
    method UpdateBatch(rays: seq<Ray>) returns (refusal: Refusal)
      requires Valid() && forall r :: r in rays ==> Fits(r, config)
      modifies this
      ensures Valid()
      ensures refusal == UpdateRefusal(old(Abs()), rays, config)
      ensures Abs() == Update(old(Abs()), rays, config)
    {
      ghost var before := Abs();
      if |rays| > config.maxRays { return TooManyRays; }
      if exists i :: 0 <= i < |rays| && rays[i].stamp < stamp { return TimeMovedBack; }
      if rays == [] { return Accepted; }
      UpdateInv(before, rays, config);
      StampsNonnegative(before, config);
      hide Batch, Inv, Latest, Moved, LegalConfig;
      var staticDelta, dynamicDelta, freeCells := Accumulate(rays, config);
      var newStatic := ApplyDelta(staticOdds, staticDelta, config);
      var newDynamic := ApplyDelta(dynamicOdds, dynamicDelta, config);
      var newFree := MarkFree(observedFree, freeCells, config);
      var newObserved, newStruck, latest := Stamps(lastObserved, lastDynamic, rays, config);
      MovedIsMerge(before, rays, staticDelta, dynamicDelta, newStatic, newDynamic, config);
      staticOdds, dynamicOdds := newStatic, newDynamic;
      observedFree := newFree;
      lastObserved, lastDynamic := newObserved, newStruck;
      stamp := latest;
      version := version + 1;
      assert Abs() == Merge(before, rays, config);
      return Accepted;
    }

    /** Ages the dynamic layer, or changes nothing when time moved back. */
    method DecayTo(now: real, e: real -> real) returns (refusal: Refusal)
      requires Valid() && IsDecay(e)
      modifies this
      ensures Valid()
      ensures refusal == if now < old(stamp) then TimeMovedBack else Accepted
      ensures Abs() == Decay(old(Abs()), now, e, config)
    {
      ghost var before := Abs();
      DecayInv(before, now, e, config);
      if now < stamp { return TimeMovedBack; }
      var n, last, layer := config.size, lastDynamic, dynamicOdds;
      dynamicOdds := seq(n, c requires 0 <= c < n && |last| == |layer|
                         == n => Times(layer[c], e(Max(0.0, now - last[c]))));
      stamp := now;
      version := version + 1;
      assert dynamicOdds == Decay(before, now, e, config).dynamicOdds;
      return Accepted;
    }
  }

  // ------------------------------------------------- the loops of one update

  predicate InGrid(cells: set<nat>, g: Config) { forall c :: c in cells ==> c < g.size }

  ghost predicate Adds(before: map<nat, real>, after: map<nat, real>, r: Ray, g: Config, isStatic: bool) {
    forall c: nat :: Entry(after, c) == Entry(before, c)
      + (if isStatic then RayEvidence(r, c, g).staticOdds else RayEvidence(r, c, g).dynamicOdds)
  }

  /** Adds one ray to the batch's sums. */
  method AddRay(staticOdds: map<nat, real>, dynamicOdds: map<nat, real>, free: set<nat>, r: Ray, g: Config)
    returns (s: map<nat, real>, d: map<nat, real>, f: set<nat>)
    requires Fits(r, g) && InGrid(staticOdds.Keys, g) && InGrid(dynamicOdds.Keys, g) && InGrid(free, g)
    ensures Adds(staticOdds, s, r, g, true) && Adds(dynamicOdds, d, r, g, false)
    ensures forall c: nat :: c in f <==> c in free || RayEvidence(r, c, g).free
    ensures InGrid(s.Keys, g) && InGrid(d.Keys, g) && InGrid(f, g)
  {
    s, d := staticOdds, dynamicOdds;
    var cells := r.cells;
    if r.hit && r.endpoint.Inside? {
      var end := r.endpoint.cell;
      if r.kind.Dynamic? { d := Added(d, end, g.occupied); } else { s := Added(s, end, g.occupied); }
      cells := if cells != [] && cells[|cells| - 1] == end then cells[..|cells| - 1] else cells;
    }
    assert cells == FreeCells(r) && forall c :: c in cells ==> c in r.cells;
    hide FreeSum, FreeCells, Added;
    f := free + set c | c in cells;
    if r.kind.Static? { s := AddFree(s, cells, g); }
  }

  /** Adds one free increment per crossing. */
  method AddFree(before: map<nat, real>, cells: seq<nat>, g: Config) returns (after: map<nat, real>)
    requires InGrid(before.Keys, g) && forall c :: c in cells ==> c < g.size
    ensures forall c: nat :: Entry(after, c) == Entry(before, c) + FreeSum(cells, c, g.free)
    ensures InGrid(after.Keys, g)
  {
    after := before;
    for j := 0 to |cells|
      invariant forall c: nat :: Entry(after, c) == Entry(before, c) + FreeSum(cells[..j], c, g.free)
      invariant InGrid(after.Keys, g)
    {
      assert cells[..j + 1][..j] == cells[..j] && cells[j] in cells;
      after := Added(after, cells[j], g.free);
    }
    assert cells[..|cells|] == cells;
  }

  /** Sums the batch into one entry per touched cell. */
  method Accumulate(rays: seq<Ray>, g: Config)
    returns (staticOdds: map<nat, real>, dynamicOdds: map<nat, real>, free: set<nat>)
    requires forall r :: r in rays ==> Fits(r, g)
    ensures forall c: nat :: Entry(staticOdds, c) == Batch(rays, c, g).staticOdds
    ensures forall c: nat :: Entry(dynamicOdds, c) == Batch(rays, c, g).dynamicOdds
    ensures forall c: nat :: c in free <==> Batch(rays, c, g).free
    ensures InGrid(staticOdds.Keys, g) && InGrid(dynamicOdds.Keys, g) && InGrid(free, g)
  {
    staticOdds, dynamicOdds, free := map[], map[], {};
    for i := 0 to |rays|
      invariant forall c: nat :: Entry(staticOdds, c) == Batch(rays[..i], c, g).staticOdds
      invariant forall c: nat :: Entry(dynamicOdds, c) == Batch(rays[..i], c, g).dynamicOdds
      invariant forall c: nat :: c in free <==> Batch(rays[..i], c, g).free
      invariant InGrid(staticOdds.Keys, g) && InGrid(dynamicOdds.Keys, g) && InGrid(free, g)
    {
      assert rays[..i + 1][..i] == rays[..i];
      staticOdds, dynamicOdds, free := AddRay(staticOdds, dynamicOdds, free, rays[i], g);
    }
    assert rays[..|rays|] == rays;
  }

  ghost predicate IsMoved(layer: seq<real>, delta: map<nat, real>, moved: seq<real>, g: Config)
    requires |layer| == |moved| == g.size
  {
    forall c :: 0 <= c < g.size ==> moved[c] == if c in delta then Moved(layer[c], delta[c], g) else layer[c]
  }

  /** Moves every cell that has an entry, in any order. */
  method ApplyDelta(layer: seq<real>, delta: map<nat, real>, g: Config) returns (moved: seq<real>)
    requires |layer| == g.size && InGrid(delta.Keys, g)
    ensures |moved| == g.size && IsMoved(layer, delta, moved, g)
  {
    moved := layer;
    var todo := delta.Keys;
    while todo != {}
      invariant |moved| == g.size && todo <= delta.Keys
      invariant forall c :: 0 <= c < g.size ==>
        moved[c] == if c in delta && c !in todo then Moved(layer[c], delta[c], g) else layer[c]
      decreases |todo|
    {
      var c :| c in todo;
      moved := moved[c := Moved(moved[c], delta[c], g)];
      todo := todo - {c};
    }
  }

  method MarkFree(layer: seq<bool>, free: set<nat>, g: Config) returns (marked: seq<bool>)
    requires |layer| == g.size && InGrid(free, g)
    ensures |marked| == g.size
    ensures forall c :: 0 <= c < g.size ==> marked[c] == (layer[c] || c in free)
  {
    marked := layer;
    var todo := free;
    while todo != {}
      invariant |marked| == g.size && todo <= free
      invariant forall c :: 0 <= c < g.size ==> marked[c] == (layer[c] || (c in free && c !in todo))
      decreases |todo|
    {
      var c :| c in todo;
      marked := marked[c := true];
      todo := todo - {c};
    }
  }

  predicate Nonnegative(layer: seq<real>) { forall c :: 0 <= c < |layer| ==> layer[c] >= 0.0 }

  /** Newest stamp per crossed cell for one ray. */
  method StampRay(layer: seq<real>, cells: seq<nat>, stamp: real) returns (stamped: seq<real>)
    requires (forall c :: c in cells ==> c < |layer|) && Nonnegative(layer)
    ensures |stamped| == |layer| && Nonnegative(stamped)
    ensures forall c :: 0 <= c < |layer| ==> stamped[c] == Max(layer[c], if c in cells then stamp else 0.0)
  {
    stamped := layer;
    for j := 0 to |cells|
      invariant |stamped| == |layer|
      invariant forall c :: 0 <= c < |layer| ==> stamped[c] == Max(layer[c], if c in cells[..j] then stamp else 0.0)
    {
      assert cells[..j + 1] == cells[..j] + [cells[j]] && cells[j] in cells;
      stamped := stamped[cells[j] := Max(stamped[cells[j]], stamp)];
    }
    assert cells[..|cells|] == cells;
  }

  /** Newest observation and dynamic-hit stamps, and the newest ray stamp. */
  method Stamps(lastObserved: seq<real>, lastDynamic: seq<real>, rays: seq<Ray>, g: Config)
    returns (observed: seq<real>, struck: seq<real>, latest: real)
    requires rays != [] && forall r :: r in rays ==> Fits(r, g)
    requires |lastObserved| == |lastDynamic| == g.size && Nonnegative(lastObserved) && Nonnegative(lastDynamic)
    ensures |observed| == |struck| == g.size && latest == Latest(rays)
    ensures forall c :: 0 <= c < g.size ==> observed[c] == Max(lastObserved[c], Batch(rays, c, g).seen)
    ensures forall c :: 0 <= c < g.size ==> struck[c] == Max(lastDynamic[c], Batch(rays, c, g).struck)
  {
    hide FreeSum, FreeCells;
    observed, struck := lastObserved, lastDynamic;
    latest := rays[0].stamp;
    for i := 0 to |rays|
      invariant |observed| == |struck| == g.size && Nonnegative(observed) && Nonnegative(struck)
      invariant forall c :: 0 <= c < g.size ==> observed[c] == Max(lastObserved[c], Batch(rays[..i], c, g).seen)
      invariant forall c :: 0 <= c < g.size ==> struck[c] == Max(lastDynamic[c], Batch(rays[..i], c, g).struck)
      invariant latest == if i == 0 then rays[0].stamp else Latest(rays[..i])
    {
      assert rays[..i + 1][..i] == rays[..i];
      var r := rays[i];
      assert r in rays && Fits(r, g);
      observed := StampRay(observed, r.cells, r.stamp);
      if r.hit && r.kind.Dynamic? && r.endpoint.Inside? {
        struck := StampRay(struck, [r.endpoint.cell], r.stamp);
      }
      latest := Max(latest, r.stamp);
    }
    assert rays[..|rays|] == rays;
  }

  /** Moving only the touched cells is moving every cell: zero evidence is no move. */
  lemma MovedIsMerge(l: Layers, rays: seq<Ray>, staticDelta: map<nat, real>, dynamicDelta: map<nat, real>,
                     newStatic: seq<real>, newDynamic: seq<real>, g: Config)
    requires LegalConfig(g) && Inv(l, g) && rays != [] && |newStatic| == |newDynamic| == g.size
    requires forall c: nat :: Entry(staticDelta, c) == Batch(rays, c, g).staticOdds
    requires forall c: nat :: Entry(dynamicDelta, c) == Batch(rays, c, g).dynamicOdds
    requires IsMoved(l.staticOdds, staticDelta, newStatic, g) && IsMoved(l.dynamicOdds, dynamicDelta, newDynamic, g)
    ensures newStatic == Merge(l, rays, g).staticOdds && newDynamic == Merge(l, rays, g).dynamicOdds
  {
    hide Batch, Moved;
    forall c: nat | c < g.size
      ensures newStatic[c] == Moved(l.staticOdds[c], Batch(rays, c, g).staticOdds, g)
      ensures newDynamic[c] == Moved(l.dynamicOdds[c], Batch(rays, c, g).dynamicOdds, g)
    {
      assert CellInv(l, c, g);
      UntouchedStays(l.staticOdds[c], g);
      UntouchedStays(l.dynamicOdds[c], g);
      assert Entry(staticDelta, c) == Batch(rays, c, g).staticOdds;
      assert Entry(dynamicDelta, c) == Batch(rays, c, g).dynamicOdds;
    }
  }

  lemma StampsNonnegative(l: Layers, g: Config)
    requires Inv(l, g)
    ensures Nonnegative(l.lastObserved) && Nonnegative(l.lastDynamic)
  {
    forall c: nat | c < g.size ensures l.lastObserved[c] >= 0.0 && l.lastDynamic[c] >= 0.0 { assert CellInv(l, c, g); }
  }

  lemma UntouchedStays(value: real, g: Config)
    requires LegalConfig(g) && Abs(value) <= g.maxLogOdds
    ensures Moved(value, 0.0, g) == value
  {
  }

  // -------------------------------------------------- invariant and bounds

  ghost predicate CellInv(l: Layers, c: nat, g: Config)
    requires Shaped(l, g) && c < g.size
  {
    && Abs(l.staticOdds[c]) <= g.maxLogOdds && 0.0 <= l.dynamicOdds[c] <= g.maxLogOdds
    && (l.staticOdds[c] < 0.0 ==> l.observedFree[c])
    && 0.0 <= l.lastObserved[c] <= l.stamp && 0.0 <= l.lastDynamic[c] <= l.stamp
  }

  ghost predicate Inv(l: Layers, g: Config) {
    Shaped(l, g) && l.stamp >= 0.0 && forall c :: 0 <= c < g.size ==> CellInv(l, c, g)
  }

  /** Discount of the age: 1 at age zero, then within (0, 1]. */
  ghost predicate IsDecay(e: real -> real) { forall t :: t >= 0.0 ==> 0.0 < e(t) <= 1.0 }

  /** Static evidence lowers a cell only when a ray crossed it, dynamic evidence
      never lowers it, and every stamp it leaves is at most the newest. */
  lemma {:induction false} BatchSigns(rays: seq<Ray>, c: nat, g: Config, newest: real)
    requires LegalConfig(g) && newest >= 0.0 && forall i :: 0 <= i < |rays| ==> rays[i].stamp <= newest
    ensures Batch(rays, c, g).staticOdds < 0.0 ==> Batch(rays, c, g).free
    ensures Batch(rays, c, g).dynamicOdds >= 0.0
    ensures 0.0 <= Batch(rays, c, g).seen <= newest && 0.0 <= Batch(rays, c, g).struck <= newest
  {
    if rays != [] {
      var r := rays[|rays| - 1];
      BatchSigns(rays[..|rays| - 1], c, g, newest);
      FreeSumSign(FreeCells(r), c, g.free);
    }
  }

  lemma {:induction false} FreeSumSign(cells: seq<nat>, c: nat, free: real)
    requires free < 0.0
    ensures FreeSum(cells, c, free) <= 0.0
    ensures FreeSum(cells, c, free) < 0.0 <==> c in cells
  {
    if cells != [] {
      FreeSumSign(cells[..|cells| - 1], c, free);
      assert cells == cells[..|cells| - 1] + [cells[|cells| - 1]];
    }
  }

  lemma MergeCell(l: Layers, rays: seq<Ray>, c: nat, g: Config)
    requires LegalConfig(g) && Inv(l, g) && rays != [] && c < g.size && l.stamp <= Latest(rays)
    ensures CellInv(Merge(l, rays, g), c, g)
  {
    LatestIsMaximum(rays);
    assert Latest(rays) >= 0.0;
    BatchSigns(rays, c, g, Latest(rays));
    assert CellInv(l, c, g);
    hide Batch, Latest;
  }

  lemma {:induction false} LatestIsMaximum(rays: seq<Ray>)
    requires rays != []
    ensures forall i :: 0 <= i < |rays| ==> rays[i].stamp <= Latest(rays)
    ensures exists i :: 0 <= i < |rays| && rays[i].stamp == Latest(rays)
  {
    if |rays| == 1 {
      assert rays[0].stamp == Latest(rays);
    } else {
      var n := |rays| - 1;
      LatestIsMaximum(rays[..n]);
      var j :| 0 <= j < n && rays[..n][j].stamp == Latest(rays[..n]);
      assert rays[j].stamp == Latest(rays[..n]);
      assert forall i :: 0 <= i < n ==> rays[i].stamp == rays[..n][i].stamp;
      assert rays[n].stamp == Latest(rays) || rays[j].stamp == Latest(rays);
    }
  }

  /** Every accepted batch keeps the invariant. */
  lemma UpdateInv(l: Layers, rays: seq<Ray>, g: Config)
    requires LegalConfig(g) && Inv(l, g)
    ensures Inv(Update(l, rays, g), g)
  {
    if UpdateRefusal(l, rays, g).Accepted? && rays != [] {
      LatestIsMaximum(rays);
      assert rays[0].stamp >= l.stamp;
      forall c: nat | c < g.size ensures CellInv(Merge(l, rays, g), c, g) { MergeCell(l, rays, c, g); }
    }
  }

  lemma DecayedValue(v: real, f: real)
    requires v >= 0.0 && 0.0 < f <= 1.0
    ensures 0.0 <= Times(v, f) <= v
  {
    assert v * (1.0 - f) >= 0.0;
  }

  lemma DecayInv(l: Layers, now: real, e: real -> real, g: Config)
    requires LegalConfig(g) && Inv(l, g) && IsDecay(e)
    ensures Inv(Decay(l, now, e, g), g)
  {
    if now >= l.stamp {
      forall c: nat | c < g.size ensures CellInv(Decay(l, now, e, g), c, g) {
        assert CellInv(l, c, g);
        DecayedValue(l.dynamicOdds[c], e(Max(0.0, now - l.lastDynamic[c])));
        hide Times;
      }
    }
  }

  // --------------------------------------------------------- order of rays

  lemma BatchSnoc(rays: seq<Ray>, r: Ray, c: nat, g: Config)
    ensures Batch(rays + [r], c, g) == Combine(Batch(rays, c, g), RayEvidence(r, c, g))
  {
    assert (rays + [r])[..|rays|] == rays;
  }

  lemma CombineAssociates(x: Evidence, a: Evidence, b: Evidence)
    ensures Combine(Combine(x, a), b) == Combine(x, Combine(a, b))
  {
  }

  lemma CombineSwap(x: Evidence, a: Evidence, b: Evidence)
    ensures Combine(Combine(x, a), b) == Combine(Combine(x, b), a)
  {
  }

  function Without(rays: seq<Ray>, i: nat): seq<Ray>
    requires i < |rays|
  {
    rays[..i] + rays[i + 1..]
  }

  lemma {:induction false} BatchRemove(rays: seq<Ray>, i: nat, c: nat, g: Config)
    requires i < |rays|
    ensures Batch(rays, c, g) == Combine(Batch(Without(rays, i), c, g), RayEvidence(rays[i], c, g))
  {
    hide Batch, RayEvidence, Combine;
    var n := |rays| - 1;
    var init := rays[..n];
    assert rays == init + [rays[n]];
    BatchSnoc(init, rays[n], c, g);
    if i == n {
      assert Without(rays, i) == init;
    } else {
      BatchRemove(init, i, c, g);
      assert Without(rays, i) == Without(init, i) + [rays[n]];
      BatchSnoc(Without(init, i), rays[n], c, g);
      CombineSwap(Batch(Without(init, i), c, g), RayEvidence(rays[i], c, g), RayEvidence(rays[n], c, g));
    }
  }

  lemma WithoutMultiset(p: seq<Ray>, q: seq<Ray>, i: nat)
    requires p != [] && i < |q| && q[i] == p[|p| - 1] && multiset(p) == multiset(q)
    ensures multiset(p[..|p| - 1]) == multiset(Without(q, i))
  {
    assert p == p[..|p| - 1] + [p[|p| - 1]];
    assert q == q[..i] + ([q[i]] + q[i + 1..]);
    var last := multiset{q[i]};
    var kept := multiset(p[..|p| - 1]);
    assert multiset(p) == kept + last;
    assert multiset(q) == multiset(Without(q, i)) + last;
    assert kept == (kept + last) - last;
    assert multiset(Without(q, i)) == (multiset(Without(q, i)) + last) - last;
  }

  /** What a batch says about a cell does not depend on the order of its rays. */
  lemma {:induction false} BatchPermutation(p: seq<Ray>, q: seq<Ray>, c: nat, g: Config)
    requires multiset(p) == multiset(q)
    ensures Batch(p, c, g) == Batch(q, c, g)
    decreases |p|
  {
    if p == [] {
      assert |multiset(q)| == 0;
    } else {
      var n := |p| - 1;
      assert p[n] in multiset(q);
      var i :| 0 <= i < |q| && q[i] == p[n];
      WithoutMultiset(p, q, i);
      BatchPermutation(p[..n], Without(q, i), c, g);
      BatchRemove(q, i, c, g);
      hide RayEvidence, Without, Combine;
    }
  }

  lemma LatestPermutation(p: seq<Ray>, q: seq<Ray>)
    requires p != [] && multiset(p) == multiset(q)
    ensures q != [] && Latest(p) == Latest(q)
  {
    assert p[0] in multiset(q);
    LatestIsMaximum(p);
    LatestIsMaximum(q);
    var i :| 0 <= i < |p| && p[i].stamp == Latest(p);
    var j :| 0 <= j < |q| && q[j].stamp == Latest(q);
    assert p[i] in multiset(q) && q[j] in multiset(p);
    assert p[i] in q && q[j] in p;
    hide Latest;
  }

  /** The whole update, refusal included, depends only on which rays are in the
      batch and how often, never on their order. */
  lemma RayOrderIrrelevant(l: Layers, p: seq<Ray>, q: seq<Ray>, g: Config)
    requires Shaped(l, g) && multiset(p) == multiset(q)
    ensures UpdateRefusal(l, p, g) == UpdateRefusal(l, q, g)
    ensures Update(l, p, g) == Update(l, q, g)
  {
    assert |p| == |multiset(p)| == |multiset(q)| == |q|;
    StalePermutation(l.stamp, p, q);
    StalePermutation(l.stamp, q, p);
    if p != [] {
      LatestPermutation(p, q);
      forall c: nat | c < g.size ensures Batch(p, c, g) == Batch(q, c, g) { BatchPermutation(p, q, c, g); }
      hide Batch, Latest, Moved;
      assert Merge(l, p, g) == Merge(l, q, g);
    }
  }

  lemma StalePermutation(stamp: real, p: seq<Ray>, q: seq<Ray>)
    requires multiset(p) == multiset(q)
    ensures (exists i :: 0 <= i < |p| && p[i].stamp < stamp) ==> exists i :: 0 <= i < |q| && q[i].stamp < stamp
  {
    if i :| 0 <= i < |p| && p[i].stamp < stamp {
      assert p[i] in multiset(q);
      assert p[i] in q;
    }
  }

  /** The evidence of two batches together is the combination of theirs. */
  lemma {:induction false} EvidenceAdds(p: seq<Ray>, q: seq<Ray>, c: nat, g: Config)
    ensures Batch(p + q, c, g) == Combine(Batch(p, c, g), Batch(q, c, g))
    decreases |q|
  {
    if q == [] {
      assert p + q == p;
      BatchStampsNonnegative(p, c, g);
    } else {
      hide RayEvidence, Batch, Combine;
      var n := |q| - 1;
      assert p + q == (p + q[..n]) + [q[n]] && q == q[..n] + [q[n]];
      BatchSnoc(p + q[..n], q[n], c, g);
      BatchSnoc(q[..n], q[n], c, g);
      EvidenceAdds(p, q[..n], c, g);
      CombineAssociates(Batch(p, c, g), Batch(q[..n], c, g), RayEvidence(q[n], c, g));
    }
  }

  lemma {:induction false} BatchStampsNonnegative(rays: seq<Ray>, c: nat, g: Config)
    ensures Batch(rays, c, g).seen >= 0.0 && Batch(rays, c, g).struck >= 0.0
  {
    if rays != [] { BatchStampsNonnegative(rays[..|rays| - 1], c, g); }
  }

  // --------------------------------------------------------- bounded movement

  /** An accepted batch moves a static cell in the direction of its summed evidence,
      by that evidence or by the cap if it is smaller, unless it reaches the bound. */
  lemma MovesWithEvidence(l: Layers, rays: seq<Ray>, g: Config, c: nat)
    requires LegalConfig(g) && Inv(l, g) && c < g.size && rays != [] && UpdateRefusal(l, rays, g).Accepted?
    ensures var delta := Batch(rays, c, g).staticOdds;
            var move := Update(l, rays, g).staticOdds[c] - l.staticOdds[c];
            && (delta >= 0.0 ==> move == Min(delta, g.maxBatch) || Update(l, rays, g).staticOdds[c] == g.maxLogOdds)
            && (delta <= 0.0 ==> move == Max(delta, -g.maxBatch) || Update(l, rays, g).staticOdds[c] == -g.maxLogOdds)
            && (delta == 0.0 ==> move == 0.0)
  {
    assert CellInv(l, c, g);
    hide Batch;
  }

  /** One batch moves no cell by more than the cap; decay leaves the static layer
      alone and only shrinks dynamic evidence. */
  lemma MovementCapped(l: Layers, rays: seq<Ray>, g: Config, c: nat)
    requires LegalConfig(g) && Inv(l, g) && c < g.size
    ensures Abs(Update(l, rays, g).staticOdds[c] - l.staticOdds[c]) <= g.maxBatch
    ensures Abs(Update(l, rays, g).dynamicOdds[c] - l.dynamicOdds[c]) <= g.maxBatch
  {
    assert CellInv(l, c, g);
    hide Batch;
  }

  /** Decay never touches the structural layer and turns a semantic cell only from
      occupied to unknown, never to free; a cell whose discounted evidence falls
      under the occupied threshold does become unknown. */
  lemma DecayForgets(l: Layers, now: real, e: real -> real, g: Config, c: nat)
    requires LegalConfig(g) && Inv(l, g) && IsDecay(e) && c < g.size && now >= l.stamp
    ensures var after := Decay(l, now, e, g);
            var remaining := Times(l.dynamicOdds[c], e(now - l.lastDynamic[c]));
            && Structural(after, c, g) == Structural(l, c, g)
            && (Semantic(after, c, g).Occupied? <==> remaining >= g.occupiedThreshold)
            && (Semantic(after, c, g).Occupied? ==> Semantic(l, c, g).Occupied?)
            && !Semantic(after, c, g).ObservedFree?
            && !Semantic(l, c, g).ObservedFree?
  {
    assert CellInv(l, c, g);
    assert Max(0.0, now - l.lastDynamic[c]) == now - l.lastDynamic[c];
    DecayedValue(l.dynamicOdds[c], e(now - l.lastDynamic[c]));
    hide Times, Inv, IsDecay;
  }

  // --------------------------------------------- a batch told by its counts

  /** Rays of a kind that returned from the cell. */
  function Returns(rays: seq<Ray>, kind: Kind, c: nat): nat {
    if rays == [] then 0
    else
      var r := rays[|rays| - 1];
      Returns(rays[..|rays| - 1], kind, c) + if r.kind == kind && r.hit && r.endpoint == Inside(c) then 1 else 0
  }

  /** How often one ray crossed the cell: as often as it is listed, but for a last
      listing from which the ray returned. */
  function CrossedBy(r: Ray, c: nat): nat {
    multiset(r.cells)[c]
      - if r.hit && r.endpoint == Inside(c) && r.cells != [] && r.cells[|r.cells| - 1] == c then 1 else 0
  }

  function Crossings(rays: seq<Ray>, c: nat): nat {
    if rays == [] then 0
    else
      var r := rays[|rays| - 1];
      Crossings(rays[..|rays| - 1], c) + if r.kind.Static? then CrossedBy(r, c) else 0
  }

  lemma {:induction false} FreeSumCounts(cells: seq<nat>, c: nat, free: real)
    ensures FreeSum(cells, c, free) == Times(multiset(cells)[c] as real, free)
  {
    if cells == [] {
      assert Times(0.0, free) == 0.0;
    } else {
      var n := |cells| - 1;
      assert cells == cells[..n] + [cells[n]];
      FreeSumCounts(cells[..n], c, free);
      OneMore(multiset(cells[..n])[c], free);
      hide Times;
    }
  }

  lemma OneMore(n: nat, x: real)
    ensures Times((n + 1) as real, x) == Times(n as real, x) + x && Times(0.0, x) == 0.0
  {
  }

  lemma CrossedIsFree(r: Ray, c: nat)
    ensures multiset(FreeCells(r))[c] == CrossedBy(r, c)
    ensures c in FreeCells(r) <==> CrossedBy(r, c) > 0
  {
    if r.cells != [] {
      var n := |r.cells| - 1;
      assert r.cells == r.cells[..n] + [r.cells[n]];
    }
  }

  lemma RayCounts(r: Ray, c: nat, g: Config)
    ensures RayEvidence(r, c, g).dynamicOdds == if r.kind.Dynamic? && Hits(r, c) then g.occupied else 0.0
    ensures r.kind.Static? ==>
              RayEvidence(r, c, g).staticOdds ==
              (if Hits(r, c) then g.occupied else 0.0) + Times(CrossedBy(r, c) as real, g.free)
    ensures r.kind.Dynamic? ==> RayEvidence(r, c, g).staticOdds == 0.0
  {
    FreeSumCounts(FreeCells(r), c, g.free);
    CrossedIsFree(r, c);
    hide Times, FreeCells, FreeSum, CrossedBy;
  }

  lemma BatchLast(rays: seq<Ray>, c: nat, g: Config)
    requires rays != []
    ensures var n := |rays| - 1;
            && Batch(rays, c, g).staticOdds == Batch(rays[..n], c, g).staticOdds + RayEvidence(rays[n], c, g).staticOdds
            && Batch(rays, c, g).dynamicOdds ==
               Batch(rays[..n], c, g).dynamicOdds + RayEvidence(rays[n], c, g).dynamicOdds
  {
    hide RayEvidence;
  }

  /** A batch's evidence about a cell is its counts: each return of a layer's kind counts
      as occupied, each static crossing as free. */
  lemma {:induction false} BatchCounts(rays: seq<Ray>, c: nat, g: Config)
    ensures Batch(rays, c, g).staticOdds ==
            Times(Returns(rays, Static, c) as real, g.occupied) + Times(Crossings(rays, c) as real, g.free)
    ensures Batch(rays, c, g).dynamicOdds == Times(Returns(rays, Dynamic, c) as real, g.occupied)
  {
    if rays == [] {
      assert Times(0.0, g.occupied) == 0.0 && Times(0.0, g.free) == 0.0;
    } else {
      var n := |rays| - 1;
      var r := rays[n];
      BatchCounts(rays[..n], c, g);
      BatchLast(rays, c, g);
      RayCounts(r, c, g);
      var s0, s1 := Returns(rays[..n], Static, c), Returns(rays, Static, c);
      var d0, d1 := Returns(rays[..n], Dynamic, c), Returns(rays, Dynamic, c);
      var c0, c1 := Crossings(rays[..n], c), Crossings(rays, c);
      assert s1 == s0 + (if r.kind.Static? && Hits(r, c) then 1 else 0);
      assert d1 == d0 + (if r.kind.Dynamic? && Hits(r, c) then 1 else 0);
      assert c1 == c0 + (if r.kind.Static? then CrossedBy(r, c) else 0);
      hide *;
      CountStep(s0, s1, g.occupied);
      CountStep(d0, d1, g.occupied);
      CountsAdd(c0, CrossedBy(r, c), g.free);
    }
  }

  lemma CountStep(before: nat, after: nat, x: real)
    requires after == before || after == before + 1
    ensures Times(after as real, x) == Times(before as real, x) + (if after == before then 0.0 else x)
  {
    OneMore(before, x);
  }

  lemma CountsAdd(m: nat, n: nat, x: real)
    ensures Times((m + n) as real, x) == Times(m as real, x) + Times(n as real, x)
  {
  }

  /** The newest stamp of the rays that crossed the cell, zero if there is none. */
  ghost predicate NewestSeen(rays: seq<Ray>, c: nat, stamp: real) {
    && stamp >= 0.0 && (forall r :: r in rays && c in r.cells ==> r.stamp <= stamp)
    && (stamp == 0.0 || exists r :: r in rays && c in r.cells && r.stamp == stamp)
  }

  /** The newest stamp of the dynamic returns from the cell, zero if there is none. */
  ghost predicate NewestStruck(rays: seq<Ray>, c: nat, stamp: real) {
    && stamp >= 0.0 && (forall r :: r in rays && r.kind.Dynamic? && Hits(r, c) ==> r.stamp <= stamp)
    && (stamp == 0.0 || exists r :: r in rays && r.kind.Dynamic? && Hits(r, c) && r.stamp == stamp)
  }

  ghost predicate Crossed(rays: seq<Ray>, c: nat) { exists r :: r in rays && CrossedBy(r, c) > 0 }

  lemma {:induction false} BatchStamps(rays: seq<Ray>, c: nat, g: Config)
    ensures NewestSeen(rays, c, Batch(rays, c, g).seen) && NewestStruck(rays, c, Batch(rays, c, g).struck)
  {
    hide FreeSum, FreeCells, CrossedBy, Hits;
    if rays != [] {
      var n := |rays| - 1;
      assert rays == rays[..n] + [rays[n]];
      BatchStamps(rays[..n], c, g);
    }
  }

  lemma {:induction false} BatchFrees(rays: seq<Ray>, c: nat, g: Config)
    ensures Batch(rays, c, g).free <==> Crossed(rays, c)
  {
    hide FreeSum, FreeCells, CrossedBy, Hits;
    if rays != [] {
      var n := |rays| - 1;
      assert rays == rays[..n] + [rays[n]];
      BatchFrees(rays[..n], c, g);
      CrossedIsFree(rays[n], c);
    }
  }

  lemma UpdatedAt(l: Layers, rays: seq<Ray>, g: Config, c: nat)
    requires Shaped(l, g) && c < g.size && rays != [] && UpdateRefusal(l, rays, g).Accepted?
    ensures var after, b := Update(l, rays, g), Batch(rays, c, g);
            && after.staticOdds[c] == Moved(l.staticOdds[c], b.staticOdds, g)
            && after.dynamicOdds[c] == Moved(l.dynamicOdds[c], b.dynamicOdds, g)
            && after.observedFree[c] == (l.observedFree[c] || b.free)
            && after.lastObserved[c] == Max(l.lastObserved[c], b.seen)
            && after.lastDynamic[c] == Max(l.lastDynamic[c], b.struck)
            && after.stamp == Latest(rays) && after.version == l.version + 1
  {
    hide Batch, Latest, Moved;
  }

  /** The value nearest to x in [-bound, bound]. */
  function Capped(x: real, bound: real): real { Max(-bound, Min(x, bound)) }

  /** What a batch's static returns and crossings say together. */
  function StaticEvidence(rays: seq<Ray>, c: nat, g: Config): real {
    Times(Returns(rays, Static, c) as real, g.occupied) + Times(Crossings(rays, c) as real, g.free)
  }

  lemma StaticEvidenceIs(rays: seq<Ray>, c: nat, g: Config)
    ensures StaticEvidence(rays, c, g) == Batch(rays, c, g).staticOdds
  {
    BatchCounts(rays, c, g);
    hide Batch, Times, Returns, Crossings;
  }

  lemma MinSymmetric(x: real, y: real)
    ensures Min(x, y) == Min(y, x)
  {
  }

  lemma MovedIs(value: real, delta: real, g: Config)
    ensures Moved(value, delta, g) == Capped(value + Capped(delta, g.maxBatch), g.maxLogOdds)
  {
    MinSymmetric(delta, g.maxBatch);
    MinSymmetric(value + Max(-g.maxBatch, Min(delta, g.maxBatch)), g.maxLogOdds);
    hide Max, Min;
  }

  lemma MovedUp(value: real, delta: real, g: Config)
    requires g.maxBatch > 0.0 && g.maxLogOdds > 0.0 && value >= 0.0 && delta >= 0.0
    ensures Moved(value, delta, g) == Min(value + Min(delta, g.maxBatch), g.maxLogOdds)
  {
  }

  /** An accepted batch with k dynamic returns from a cell raises its dynamic log-odds by
      k times the occupied evidence, at most by the cap and up to the bound, and with
      none leaves it. */
  lemma DynamicMovesExactly(l: Layers, rays: seq<Ray>, g: Config, c: nat)
    requires LegalConfig(g) && Inv(l, g) && c < g.size && rays != [] && UpdateRefusal(l, rays, g).Accepted?
    ensures var k := Returns(rays, Dynamic, c);
            var after := Update(l, rays, g);
            && after.dynamicOdds[c] ==
               Min(l.dynamicOdds[c] + Min(Times(k as real, g.occupied), g.maxBatch), g.maxLogOdds)
            && (k == 0 ==> after.dynamicOdds[c] == l.dynamicOdds[c])
  {
    var value, k := l.dynamicOdds[c], Returns(rays, Dynamic, c);
    assert CellInv(l, c, g);
    assert value >= 0.0;
    hide *;
    UpdatedAt(l, rays, g, c);
    BatchCounts(rays, c, g);
    TimesSign(k as real, g.occupied);
    OneMore(0, g.occupied);
    MovedUp(value, Times(k as real, g.occupied), g);
    MinOfZero(value, g);
  }

  lemma MinOfZero(value: real, g: Config)
    requires LegalConfig(g) && value <= g.maxLogOdds
    ensures Min(value + Min(0.0, g.maxBatch), g.maxLogOdds) == value
  {
  }

  /** Its static log-odds move by the evidence of static returns and crossings, within
      cap and bound. */
  lemma StaticMovesExactly(l: Layers, rays: seq<Ray>, g: Config, c: nat)
    requires LegalConfig(g) && Inv(l, g) && c < g.size && rays != [] && UpdateRefusal(l, rays, g).Accepted?
    ensures Update(l, rays, g).staticOdds[c] ==
            Capped(l.staticOdds[c] + Capped(StaticEvidence(rays, c, g), g.maxBatch), g.maxLogOdds)
  {
    var value := l.staticOdds[c];
    hide *;
    UpdatedAt(l, rays, g, c);
    StaticEvidenceIs(rays, c, g);
    MovedIs(value, Batch(rays, c, g).staticOdds, g);
  }

  /** A dynamic return makes a cell semantically occupied at once, if a single return
      within cap and bound reaches the threshold. */
  lemma ReturnOccupies(l: Layers, rays: seq<Ray>, g: Config, c: nat)
    requires LegalConfig(g) && Inv(l, g) && c < g.size && UpdateRefusal(l, rays, g).Accepted?
    requires exists r :: r in rays && r.kind.Dynamic? && r.hit && r.endpoint == Inside(c)
    requires g.occupiedThreshold <= Min(Min(g.occupied, g.maxBatch), g.maxLogOdds)
    ensures Semantic(Update(l, rays, g), c, g).Occupied?
  {
    assert CellInv(l, c, g);
    var r :| r in rays && r.kind.Dynamic? && r.hit && r.endpoint == Inside(c);
    ReturnCounted(rays, r, c);
    DynamicMovesExactly(l, rays, g, c);
    var k := Returns(rays, Dynamic, c);
    OneMore(k - 1, g.occupied);
    TimesSign((k - 1) as real, g.occupied);
    hide Times, Update, Inv;
  }

  lemma {:induction false} ReturnCounted(rays: seq<Ray>, r: Ray, c: nat)
    requires r in rays && r.hit && r.endpoint == Inside(c)
    ensures Returns(rays, r.kind, c) > 0
  {
    var n := |rays| - 1;
    assert rays == rays[..n] + [rays[n]];
    if rays[n] != r { ReturnCounted(rays[..n], r, c); }
  }

  /** What else an accepted batch does: it marks the crossed cells, keeps the newest
      stamps, takes on the newest ray stamp and counts one version. */
  lemma BatchMarksExactly(l: Layers, rays: seq<Ray>, g: Config, c: nat) returns (seen: real, struck: real)
    requires Shaped(l, g) && c < g.size && rays != [] && UpdateRefusal(l, rays, g).Accepted?
    ensures NewestSeen(rays, c, seen) && NewestStruck(rays, c, struck)
    ensures var after := Update(l, rays, g);
            && (after.observedFree[c] <==> l.observedFree[c] || Crossed(rays, c))
            && after.lastObserved[c] == Max(l.lastObserved[c], seen)
            && after.lastDynamic[c] == Max(l.lastDynamic[c], struck)
            && (forall i :: 0 <= i < |rays| ==> rays[i].stamp <= after.stamp)
            && (exists i :: 0 <= i < |rays| && rays[i].stamp == after.stamp)
            && after.version == l.version + 1
  {
    UpdatedAt(l, rays, g, c);
    BatchStamps(rays, c, g);
    BatchFrees(rays, c, g);
    LatestIsMaximum(rays);
    seen, struck := Batch(rays, c, g).seen, Batch(rays, c, g).struck;
    hide Batch, Latest, CrossedBy, Hits, NewestSeen, NewestStruck, Crossed, Update;
  }

  /** Exactly which batches are refused, and that refused and empty ones change nothing. */
  lemma RefusedExactly(l: Layers, rays: seq<Ray>, g: Config)
    requires Shaped(l, g)
    ensures UpdateRefusal(l, rays, g).TooManyRays? <==> |rays| > g.maxRays
    ensures UpdateRefusal(l, rays, g).TimeMovedBack? <==>
              |rays| <= g.maxRays && exists i :: 0 <= i < |rays| && rays[i].stamp < l.stamp
    ensures !UpdateRefusal(l, rays, g).Accepted? || rays == [] ==> Update(l, rays, g) == l
  {
  }

  /** What the layers of a snapshot mean: thresholds in the single layers, and occupied
      in the collision layer exactly when occupied in either. */
  lemma SnapshotExactly(l: Layers, c: nat, g: Config)
    requires LegalConfig(g) && Shaped(l, g) && c < g.size
    ensures Structural(l, c, g).Occupied? <==> l.staticOdds[c] >= g.occupiedThreshold
    ensures Structural(l, c, g).ObservedFree? <==> l.staticOdds[c] <= g.freeThreshold
    ensures Semantic(l, c, g).Occupied? <==> l.dynamicOdds[c] >= g.occupiedThreshold
    ensures Collision(l, c, g).Occupied? <==> Structural(l, c, g).Occupied? || Semantic(l, c, g).Occupied?
    ensures Collision(l, c, g).ObservedFree? <==>
            l.staticOdds[c] <= g.freeThreshold && l.dynamicOdds[c] < g.occupiedThreshold
  {
  }

  /** What decay does: every dynamic cell by its own age, and nothing else but the stamp
      and the version. */
  lemma DecayExactly(l: Layers, now: real, e: real -> real, g: Config, c: nat)
    requires Inv(l, g) && c < g.size
    ensures var after := Decay(l, now, e, g);
            && (now < l.stamp ==> after == l)
            && (now >= l.stamp ==>
                 && after.dynamicOdds[c] == Times(l.dynamicOdds[c], e(now - l.lastDynamic[c]))
                 && after == l.(dynamicOdds := after.dynamicOdds, stamp := now, version := l.version + 1))
  {
    assert CellInv(l, c, g);
    hide Times;
  }

  // -------------------------------------------------------------- whole runs

  datatype Op = BatchOp(rays: seq<Ray>) | DecayOp(now: real)

  function Step(l: Layers, op: Op, e: real -> real, g: Config): Layers
    requires Shaped(l, g)
  {
    match op
    case BatchOp(rays) => Update(l, rays, g)
    case DecayOp(now) => Decay(l, now, e, g)
  }

  function Run(ops: seq<Op>, e: real -> real, g: Config): (l: Layers)
    ensures Shaped(l, g)
  {
    if ops == [] then Empty(g) else Step(Run(ops[..|ops| - 1], e, g), ops[|ops| - 1], e, g)
  }

  /** Whatever batches and decays arrive, every log-odds cell stays in its range,
      dynamic evidence stays non-negative and no stamp lies in the future. */
  lemma {:induction false} RunInv(ops: seq<Op>, e: real -> real, g: Config)
    requires LegalConfig(g) && IsDecay(e)
    ensures Inv(Run(ops, e, g), g)
  {
    if ops != [] {
      var before := Run(ops[..|ops| - 1], e, g);
      RunInv(ops[..|ops| - 1], e, g);
      match ops[|ops| - 1]
      case BatchOp(rays) => UpdateInv(before, rays, g);
      case DecayOp(now) => DecayInv(before, now, e, g);
    }
  }

  /** Kinds of observation a ray can make of a cell. */
  datatype Sighting = StaticCrossing | AnyCrossing | StaticHit | DynamicHit

  predicate Shows(r: Ray, c: nat, sighting: Sighting) {
    match sighting
    case StaticCrossing => r.kind.Static? && c in FreeCells(r)
    case AnyCrossing => c in FreeCells(r)
    case StaticHit => r.kind.Static? && Hits(r, c)
    case DynamicHit => r.kind.Dynamic? && Hits(r, c)
  }

  predicate BatchShows(rays: seq<Ray>, c: nat, sighting: Sighting) {
    exists i :: 0 <= i < |rays| && Shows(rays[i], c, sighting)
  }

  /** Some accepted batch of the run held such a ray. */
  predicate Witnessed(ops: seq<Op>, c: nat, sighting: Sighting, e: real -> real, g: Config) {
    ops != [] &&
    (Witnessed(ops[..|ops| - 1], c, sighting, e, g) ||
     (var last := ops[|ops| - 1];
      last.BatchOp? && UpdateRefusal(Run(ops[..|ops| - 1], e, g), last.rays, g).Accepted?
      && BatchShows(last.rays, c, sighting)))
  }

  lemma ShowsExtends(rays: seq<Ray>, c: nat, sighting: Sighting)
    requires rays != []
    ensures BatchShows(rays, c, sighting) <==>
            BatchShows(rays[..|rays| - 1], c, sighting) || Shows(rays[|rays| - 1], c, sighting)
  {
    var n := |rays| - 1;
    if BatchShows(rays[..n], c, sighting) {
      var i :| 0 <= i < n && Shows(rays[..n][i], c, sighting);
      assert Shows(rays[i], c, sighting);
    }
    if i :| 0 <= i < |rays| && Shows(rays[i], c, sighting) {
      assert i < n ==> Shows(rays[..n][i], c, sighting);
    }
  }

  /** The sign of a batch's evidence comes from a ray that made that observation. */
  lemma {:induction false} SignIsSighted(rays: seq<Ray>, c: nat, g: Config)
    requires LegalConfig(g)
    ensures Batch(rays, c, g).staticOdds < 0.0 ==> BatchShows(rays, c, StaticCrossing)
    ensures Batch(rays, c, g).staticOdds > 0.0 ==> BatchShows(rays, c, StaticHit)
    ensures Batch(rays, c, g).dynamicOdds > 0.0 ==> BatchShows(rays, c, DynamicHit)
    ensures Batch(rays, c, g).free <==> BatchShows(rays, c, AnyCrossing)
  {
    if rays != [] {
      SignIsSighted(rays[..|rays| - 1], c, g);
      ShowsExtends(rays, c, StaticCrossing);
      ShowsExtends(rays, c, StaticHit);
      ShowsExtends(rays, c, DynamicHit);
      ShowsExtends(rays, c, AnyCrossing);
      FreeSumSign(FreeCells(rays[|rays| - 1]), c, g.free);
      hide BatchShows, FreeCells, FreeSum;
    }
  }

  lemma MoveKeepsSign(value: real, delta: real, g: Config)
    requires LegalConfig(g)
    ensures Moved(value, delta, g) < 0.0 ==> value < 0.0 || delta < 0.0
    ensures Moved(value, delta, g) > 0.0 ==> value > 0.0 || delta > 0.0
  {
  }

  ghost predicate Sourced(l: Layers, ops: seq<Op>, c: nat, e: real -> real, g: Config)
    requires Shaped(l, g) && c < g.size
  {
    && (l.staticOdds[c] < 0.0 ==> Witnessed(ops, c, StaticCrossing, e, g))
    && (l.staticOdds[c] > 0.0 ==> Witnessed(ops, c, StaticHit, e, g))
    && (l.dynamicOdds[c] > 0.0 ==> Witnessed(ops, c, DynamicHit, e, g))
    && (l.observedFree[c] <==> Witnessed(ops, c, AnyCrossing, e, g))
  }

  lemma {:induction false} RunSourced(ops: seq<Op>, c: nat, e: real -> real, g: Config)
    requires LegalConfig(g) && IsDecay(e) && c < g.size
    ensures Sourced(Run(ops, e, g), ops, c, e, g)
  {
    if ops != [] {
      var earlier, last := ops[..|ops| - 1], ops[|ops| - 1];
      var before := Run(earlier, e, g);
      RunSourced(earlier, c, e, g);
      RunInv(earlier, e, g);
      assert CellInv(before, c, g);
      match last
      case DecayOp(now) =>
        DecayedValue(before.dynamicOdds[c], e(Max(0.0, now - before.lastDynamic[c])));
      case BatchOp(rays) =>
        SignIsSighted(rays, c, g);
        MoveKeepsSign(before.staticOdds[c], Batch(rays, c, g).staticOdds, g);
        MoveKeepsSign(before.dynamicOdds[c], Batch(rays, c, g).dynamicOdds, g);
        hide BatchShows, Batch, Moved, Inv, CellInv, Latest;
    }
  }

  /** The map never invents: over every run, a cell is reported free only after a
      static ray crossed it, structurally occupied only after a static return,
      semantically occupied only after a dynamic return (thresholds above zero),
      the semantic layer is never free, and the observed-free layer is exactly the
      set of cells some accepted ray crossed. */
  lemma MapNeverInvents(ops: seq<Op>, c: nat, e: real -> real, g: Config)
    requires LegalConfig(g) && IsDecay(e) && c < g.size
    ensures var l := Run(ops, e, g);
            && (Collision(l, c, g).ObservedFree? ==> Witnessed(ops, c, StaticCrossing, e, g) && l.observedFree[c])
            && (g.occupiedThreshold > 0.0 && Structural(l, c, g).Occupied? ==> Witnessed(ops, c, StaticHit, e, g))
            && (g.occupiedThreshold > 0.0 && Semantic(l, c, g).Occupied? ==> Witnessed(ops, c, DynamicHit, e, g))
            && !Semantic(l, c, g).ObservedFree?
            && (l.observedFree[c] <==> Witnessed(ops, c, AnyCrossing, e, g))
  {
    RunSourced(ops, c, e, g);
    RunInv(ops, e, g);
    assert CellInv(Run(ops, e, g), c, g);
    hide Witnessed, Run;
  }
}
