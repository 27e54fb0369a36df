/** Continuous capture search: recursive bisection of each trajectory segment
    with geometric pruning and interval certification.  Distances are exact;
    `hypot` is passed in with its defining property, and the bearing, line of
    sight and swept-envelope tests are arbitrary predicates. */
module CaptureSearch {
  import opened Arithmetic

  datatype Pose = Pose(x: real, y: real, theta: real)

  datatype Segment = Segment(g0: Pose, g1: Pose, e0: Pose, e1: Pose)

  datatype Scene = Scene(
    hypot: (real, real) -> real,
    bearingWithin: (Pose, Pose) -> bool,
    blocked: (Pose, Pose) -> bool,
    sweepClear: (Segment, real, real) -> bool,
    limit: real)

  ghost predicate ValidScene(s: Scene) { s.limit > 0.0 && IsHypot(s.hypot) }

  function Interpolate(a: Pose, b: Pose, f: real): Pose {
    Pose(a.x + (b.x - a.x) * f, a.y + (b.y - a.y) * f, a.theta + (b.theta - a.theta) * f)
  }

  /** From a at fraction 0 to b at 1, position and heading each at a constant rate. */
  lemma InterpolatesSteadily(a: Pose, b: Pose, f: real, g: real)
    ensures Interpolate(a, b, 0.0) == a && Interpolate(a, b, 1.0) == b
    ensures var p, q := Interpolate(a, b, f), Interpolate(a, b, g);
            && q.x - p.x == (b.x - a.x) * (g - f) && q.y - p.y == (b.y - a.y) * (g - f)
            && q.theta - p.theta == (b.theta - a.theta) * (g - f)
  {
  }

  function Guardian(s: Segment, f: real): Pose { Interpolate(s.g0, s.g1, f) }

  function Explorer(s: Segment, f: real): Pose { Interpolate(s.e0, s.e1, f) }

  function RelX(s: Segment, f: real): real { Explorer(s, f).x - Guardian(s, f).x }

  function RelY(s: Segment, f: real): real { Explorer(s, f).y - Guardian(s, f).y }

  function Distance(c: Scene, s: Segment, f: real): real { c.hypot(RelX(s, f), RelY(s, f)) }

  /** The capture rule at one instant. */
  predicate IsCapture(c: Scene, s: Segment, f: real) {
    && Distance(c, s, f) != 0.0
    && !c.blocked(Guardian(s, f), Explorer(s, f))
    && Distance(c, s, f) < c.limit
    && c.bearingWithin(Guardian(s, f), Explorer(s, f))
  }

  function SquaredDistance(g: Pose, e: Pose): real { Times(e.x - g.x, e.x - g.x) + Times(e.y - g.y, e.y - g.y) }

  /** A capture, told without norms: the robots are apart but within the limit, nothing is
      between them, and the bearing fits. */
  lemma CaptureExactly(c: Scene, s: Segment, f: real)
    requires ValidScene(c)
    ensures var g, e := Interpolate(s.g0, s.g1, f), Interpolate(s.e0, s.e1, f);
            IsCapture(c, s, f) <==>
              && 0.0 < SquaredDistance(g, e) < Times(c.limit, c.limit) && !c.blocked(g, e) && c.bearingWithin(g, e)
  {
    DistanceSquared(c, s, f);
    hide IsHypot, Interpolate, Distance, SquaredDistance, Times;
    NormBetween(Distance(c, s, f), SquaredDistance(Guardian(s, f), Explorer(s, f)), c.limit);
  }

  lemma DistanceSquared(c: Scene, s: Segment, f: real)
    requires ValidScene(c)
    ensures Distance(c, s, f) >= 0.0
    ensures Times(Distance(c, s, f), Distance(c, s, f)) == SquaredDistance(Guardian(s, f), Explorer(s, f))
  {
    hide Guardian, Explorer;
  }

  lemma NormBetween(d: real, squared: real, limit: real)
    requires d >= 0.0 && Times(d, d) == squared && limit > 0.0
    ensures d != 0.0 && d < limit <==> 0.0 < squared < Times(limit, limit)
  {
    SquareReflects(limit, d);
    SquareReflects(d, limit);
    SquareSign(d);
    assert Times(d, d) == d * d && Times(limit, limit) == limit * limit;
    hide Times;
  }

  function VelocityX(s: Segment): real { (s.e1.x - s.e0.x) - (s.g1.x - s.g0.x) }

  function VelocityY(s: Segment): real { (s.e1.y - s.e0.y) - (s.g1.y - s.g0.y) }

  /** The farthest the distance can change within `half` of an instant. */
  function Drift(c: Scene, s: Segment, half: real): real { c.hypot(VelocityX(s), VelocityY(s)) * half }

  /** Distance bounded away from zero and from the limit over [low, high], and
      the remaining interval tests pass. */
  predicate Certified(c: Scene, s: Segment, low: real, high: real) {
    var middle := (low + high) / 2.0;
    var half := (high - low) / 2.0;
    && Distance(c, s, middle) - Drift(c, s, half) > 0.0
    && Distance(c, s, middle) + Drift(c, s, half) < c.limit
    && c.sweepClear(s, low, high)
  }

  /** Fraction of the relative chord from (sx, sy) along (dx, dy) closest to the origin. */
  function ClosestFraction(sx: real, sy: real, dx: real, dy: real): real {
    var squared := dx * dx + dy * dy;
    if squared == 0.0 then 0.0 else Max(0.0, Min(1.0, -(sx * dx + sy * dy) / squared))
  }

  function ClosestDistance(c: Scene, s: Segment, low: real, high: real): real {
    var sx, sy := RelX(s, low), RelY(s, low);
    var dx, dy := RelX(s, high) - sx, RelY(s, high) - sy;
    var f := ClosestFraction(sx, sy, dx, dy);
    c.hypot(sx + f * dx, sy + f * dy)
  }

  predicate Search(c: Scene, s: Segment, low: real, high: real, depth: nat, maxDepth: nat)
    decreases maxDepth - depth
  {
    if ClosestDistance(c, s, low, high) >= c.limit then false
    else if Certified(c, s, low, high) then true
    else
      var middle := (low + high) / 2.0;
      if IsCapture(c, s, low) || IsCapture(c, s, middle) || IsCapture(c, s, high) then true
      else if depth >= maxDepth then false
      else Search(c, s, low, middle, depth + 1, maxDepth) || Search(c, s, middle, high, depth + 1, maxDepth)
  }

  // ----------------------------------------------------------------- pruning

  function SquareAt(sx: real, sy: real, dx: real, dy: real, t: real): real {
    (sx + t * dx) * (sx + t * dx) + (sy + t * dy) * (sy + t * dy)
  }

  lemma SquareGap(sx: real, sy: real, dx: real, dy: real, c: real, t: real)
    ensures var d, dot := dx * dx + dy * dy, sx * dx + sy * dy;
            SquareAt(sx, sy, dx, dy, t) - SquareAt(sx, sy, dx, dy, c) == (t - c) * (d * (t + c) + 2.0 * dot)
  {
    AxisGap(sx, dx, c, t);
    AxisGap(sy, dy, c, t);
    var px, py, gap, sum := dx * dx, dy * dy, t - c, t + c;
    assert gap * (px * sum + 2.0 * (sx * dx)) + gap * (py * sum + 2.0 * (sy * dy))
           == gap * ((px + py) * sum + 2.0 * (sx * dx + sy * dy));
  }

  lemma AxisGap(s: real, d: real, c: real, t: real)
    ensures (s + t * d) * (s + t * d) - (s + c * d) * (s + c * d) == (t - c) * (d * d * (t + c) + 2.0 * (s * d))
  {
    var td, cd := t * d, c * d;
    assert (s + td) * (s + td) - (s + cd) * (s + cd) == (td - cd) * (2.0 * s + td + cd);
    assert td - cd == (t - c) * d;
    assert (t - c) * d * (2.0 * s + td + cd) == (t - c) * (d * (2.0 * s + td + cd));
    assert d * (2.0 * s + td + cd) == 2.0 * (s * d) + d * d * (t + c);
  }

  lemma SameSign(a: real, b: real)
    ensures a >= 0.0 && b >= 0.0 ==> a * b >= 0.0
    ensures a <= 0.0 && b <= 0.0 ==> a * b >= 0.0
  {
  }

  lemma NonzeroSquare(x: real)
    ensures x * x >= 0.0 && (x != 0.0 ==> x * x > 0.0)
  {
    if x < 0.0 { assert x * x == (-x) * (-x); }
  }

  /** The clamped fraction minimises the squared distance over the chord. */
  lemma ClosestIsMinimum(sx: real, sy: real, dx: real, dy: real, t: real)
    requires 0.0 <= t <= 1.0
    ensures SquareAt(sx, sy, dx, dy, ClosestFraction(sx, sy, dx, dy)) <= SquareAt(sx, sy, dx, dy, t)
  {
    var d, dot := dx * dx + dy * dy, sx * dx + sy * dy;
    var c := ClosestFraction(sx, sy, dx, dy);
    SquareGap(sx, sy, dx, dy, c, t);
    if d == 0.0 {
      NonzeroSquare(dx);
      NonzeroSquare(dy);
    } else {
      assert dx * dx >= 0.0 && dy * dy >= 0.0;
      var u := -dot / d;
      assert d * u == -dot;
      assert d * (t + c) + 2.0 * dot == d * (t + c - 2.0 * u);
      SameSign(d, (t - c) * (t + c - 2.0 * u));
      SameSign(t - c, t + c - 2.0 * u);
      assert (t - c) * (d * (t + c - 2.0 * u)) == d * ((t - c) * (t + c - 2.0 * u));
    }
  }

  lemma Affine(atLow: real, atF: real, atHigh: real, v: real, k: real, w: real, t: real)
    requires t * w == k && atF == atLow + k * v && atHigh == atLow + w * v
    ensures atF == atLow + t * (atHigh - atLow)
  {
    assert t * (w * v) == (t * w) * v;
  }

  lemma RelAffine(s: Segment, low: real, high: real, f: real)
    requires low < high
    ensures var t := (f - low) / (high - low);
            && RelX(s, f) == RelX(s, low) + t * (RelX(s, high) - RelX(s, low))
            && RelY(s, f) == RelY(s, low) + t * (RelY(s, high) - RelY(s, low))
  {
    hide RelX, RelY, VelocityX, VelocityY;
    var k, w := f - low, high - low;
    var t := k / w;
    assert low + k == f && low + w == high && t * w == k;
    RelStep(s, low, k);
    RelStep(s, low, w);
    Affine(RelX(s, low), RelX(s, f), RelX(s, high), VelocityX(s), k, w, t);
    Affine(RelY(s, low), RelY(s, f), RelY(s, high), VelocityY(s), k, w, t);
  }

  lemma UnitQuotient(k: real, w: real)
    requires w > 0.0 && 0.0 <= k <= w
    ensures 0.0 <= k / w <= 1.0
  {
    var q := k / w;
    assert q * w == k;
    ScaleOrder(0.0, q, w);
    ScaleOrder(q, 1.0, w);
  }

  lemma ScaledBound(m: real, half: real, speed: real)
    requires m <= half && speed >= 0.0
    ensures m * speed <= speed * half
  {
    SameSign(half - m, speed);
    assert (half - m) * speed == half * speed - m * speed;
  }

  lemma NormAt(c: Scene, sx: real, sy: real, dx: real, dy: real, t: real)
    requires ValidScene(c)
    ensures var h := c.hypot(sx + t * dx, sy + t * dy); h >= 0.0 && h * h == SquareAt(sx, sy, dx, dy, t)
  {
  }

  /** Pruning never loses a capture: when the closest point of the relative
      chord is at or beyond the limit, so is every instant of the interval. */
  lemma PruneIsSafe(c: Scene, s: Segment, low: real, high: real, f: real)
    requires ValidScene(c) && low < high && low <= f <= high
    requires ClosestDistance(c, s, low, high) >= c.limit
    ensures Distance(c, s, f) >= c.limit
  {
    var sx, sy := RelX(s, low), RelY(s, low);
    var dx, dy := RelX(s, high) - sx, RelY(s, high) - sy;
    var t := (f - low) / (high - low);
    RelAffine(s, low, high, f);
    UnitQuotient(f - low, high - low);
    hide RelX, RelY, IsCapture, ClosestFraction, SquareAt;
    ClosestIsMinimum(sx, sy, dx, dy, t);
    NormAt(c, sx, sy, dx, dy, t);
    NormAt(c, sx, sy, dx, dy, ClosestFraction(sx, sy, dx, dy));
    hide IsHypot;
    SquareReflects(ClosestDistance(c, s, low, high), Distance(c, s, f));
  }

  // ----------------------------------------------------------- certification

  /** Cauchy-Schwarz and the triangle inequality for a hypot function. */
  lemma Triangle(h: (real, real) -> real, ax: real, ay: real, bx: real, bz: real)
    requires IsHypot(h)
    ensures h(ax + bx, ay + bz) <= h(ax, ay) + h(bx, bz)
  {
    var a, b := h(ax, ay), h(bx, bz);
    var dot := ax * bx + ay * bz;
    var det := ax * bz - ay * bx;
    Lagrange(ax, ay, bx, bz);
    assert det * det >= 0.0;
    assert (a * b) * (a * b) == (a * a) * (b * b);
    assert a * b >= 0.0;
    SquareReflects(dot, a * b);
    var sum := h(ax + bx, ay + bz);
    assert sum * sum == a * a + b * b + 2.0 * dot;
    assert (a + b) * (a + b) == a * a + b * b + 2.0 * (a * b);
    SquareReflects(sum, a + b);
  }

  lemma Lagrange(ax: real, ay: real, bx: real, bz: real)
    ensures var dot, det := ax * bx + ay * bz, ax * bz - ay * bx;
            dot * dot + det * det == (ax * ax + ay * ay) * (bx * bx + bz * bz)
  {
    var p, q, r, t := ax * bx, ay * bz, ax * bz, ay * bx;
    assert p * q == r * t;
    assert p * p == (ax * ax) * (bx * bx) && q * q == (ay * ay) * (bz * bz);
    assert r * r == (ax * ax) * (bz * bz) && t * t == (ay * ay) * (bx * bx);
  }

  lemma ScaledHypot(h: (real, real) -> real, x: real, y: real, k: real)
    requires IsHypot(h)
    ensures h(k * x, k * y) == Abs(k) * h(x, y)
  {
    var a, b := h(k * x, k * y), Abs(k) * h(x, y);
    assert Abs(k) * Abs(k) == k * k;
    assert b * b == (Abs(k) * Abs(k)) * (h(x, y) * h(x, y));
    assert (k * x) * (k * x) + (k * y) * (k * y) == (k * k) * (x * x + y * y);
    assert b >= 0.0;
    SquareReflects(a, b);
    SquareReflects(b, a);
  }

  /** Drifting by at most `half` at the relative velocity moves the distance by
      at most the relative speed times `half`. */
  lemma DriftBound(h: (real, real) -> real, mx: real, my: real, vx: real, vy: real, k: real, half: real)
    requires IsHypot(h) && Abs(k) <= half
    ensures h(mx, my) - h(vx, vy) * half <= h(mx + k * vx, my + k * vy) <= h(mx, my) + h(vx, vy) * half
  {
    var ox, oy := k * vx, k * vy;
    ScaledHypot(h, vx, vy, k);
    ScaledBound(Abs(k), half, h(vx, vy));
    Triangle(h, mx, my, ox, oy);
    DriftBack(h, mx, my, ox, oy);
  }

  lemma DriftBack(h: (real, real) -> real, mx: real, my: real, ox: real, oy: real)
    requires IsHypot(h)
    ensures h(mx, my) <= h(mx + ox, my + oy) + h(ox, oy)
  {
    var nx, ny := -1.0 * ox, -1.0 * oy;
    ScaledHypot(h, ox, oy, -1.0);
    Triangle(h, mx + ox, my + oy, nx, ny);
    assert mx + ox + nx == mx && my + oy + ny == my;
  }

  /** A certified interval holds only distances strictly between zero and the limit. */
  lemma CertifiedDistances(c: Scene, s: Segment, low: real, high: real, f: real)
    requires ValidScene(c) && low <= f <= high && Certified(c, s, low, high)
    ensures 0.0 < Distance(c, s, f) < c.limit && c.sweepClear(s, low, high)
  {
    var middle, half := (low + high) / 2.0, (high - low) / 2.0;
    hide Distance, Drift, IsHypot;
    var k := f - middle;
    assert middle + k == f && Abs(k) <= half;
    DistanceDrift(c, s, middle, k, half);
  }

  lemma DistanceDrift(c: Scene, s: Segment, m: real, k: real, half: real)
    requires IsHypot(c.hypot) && Abs(k) <= half
    ensures Distance(c, s, m) - Drift(c, s, half) <= Distance(c, s, m + k) <= Distance(c, s, m) + Drift(c, s, half)
  {
    hide RelX, RelY, VelocityX, VelocityY, IsHypot;
    RelStep(s, m, k);
    var mx, my, vx, vy := RelX(s, m), RelY(s, m), VelocityX(s), VelocityY(s);
    DriftBound(c.hypot, mx, my, vx, vy, k, half);
    assert RelX(s, m + k) == mx + k * vx && RelY(s, m + k) == my + k * vy;
  }

  /** Relative position moves at constant velocity along a segment. */
  lemma RelStep(s: Segment, m: real, k: real)
    ensures RelX(s, m + k) == RelX(s, m) + k * VelocityX(s)
    ensures RelY(s, m + k) == RelY(s, m) + k * VelocityY(s)
  {
  }

  // -------------------------------------------------- soundness, completeness

  /** Whatever the search accepts really comes within the limit. */
  lemma {:induction false} SearchIsSound(c: Scene, s: Segment, low: real, high: real, depth: nat, maxDepth: nat)
    requires ValidScene(c) && low < high && Search(c, s, low, high, depth, maxDepth)
    ensures exists f :: low <= f <= high && 0.0 < Distance(c, s, f) < c.limit
    decreases maxDepth - depth
  {
    var middle := (low + high) / 2.0;
    if Certified(c, s, low, high) {
      CertifiedDistances(c, s, low, high, low);
    } else if IsCapture(c, s, low) || IsCapture(c, s, middle) || IsCapture(c, s, high) {
      var f := if IsCapture(c, s, low) then low else if IsCapture(c, s, middle) then middle else high;
      assert Distance(c, s, f) >= 0.0;
    } else if Search(c, s, low, middle, depth + 1, maxDepth) {
      SearchIsSound(c, s, low, middle, depth + 1, maxDepth);
    } else {
      SearchIsSound(c, s, middle, high, depth + 1, maxDepth);
    }
  }

  /** [low, high] holds a capture instant, or part of it is certified. */
  ghost predicate HasEvidence(c: Scene, s: Segment, low: real, high: real) {
    || (exists f :: low <= f <= high && IsCapture(c, s, f))
    || exists a, b :: low <= a < b <= high && Certified(c, s, a, b)
  }

  /** The search accepts only on evidence: an instant that meets the capture rule,
      or an interval that passes certification. */
  lemma {:induction false} SearchHasEvidence(c: Scene, s: Segment, low: real, high: real, depth: nat, maxDepth: nat)
    requires low < high && Search(c, s, low, high, depth, maxDepth)
    ensures HasEvidence(c, s, low, high)
    decreases maxDepth - depth
  {
    var middle := (low + high) / 2.0;
    hide Certified, IsCapture;
    if Certified(c, s, low, high) || IsCapture(c, s, low) || IsCapture(c, s, middle) || IsCapture(c, s, high) {
    } else if Search(c, s, low, middle, depth + 1, maxDepth) {
      SearchHasEvidence(c, s, low, middle, depth + 1, maxDepth);
    } else {
      SearchHasEvidence(c, s, middle, high, depth + 1, maxDepth);
    }
  }

  function Pow2(n: nat): (p: nat)
    ensures p > 0
  {
    if n == 0 then 1 else 2 * Pow2(n - 1)
  }

  /** The k-th point of the grid that splits [low, high] into n equal parts. */
  function GridPoint(low: real, high: real, k: int, n: nat): real
    requires n > 0
  {
    low + (high - low) * (k as real / n as real)
  }

  /** Exactly what the bisection looks for, without pruning: at some interval of the
      tree, `levels` deep, a certificate or a capture at an end or the middle. */
  ghost predicate EvidenceWithin(c: Scene, s: Segment, low: real, high: real, levels: nat)
    decreases levels
  {
    var middle := (low + high) / 2.0;
    || Certified(c, s, low, high)
    || IsCapture(c, s, low) || IsCapture(c, s, middle) || IsCapture(c, s, high)
    || (levels > 0
        && (EvidenceWithin(c, s, low, middle, levels - 1) || EvidenceWithin(c, s, middle, high, levels - 1)))
  }

  lemma {:induction false} EvidenceIsNear(c: Scene, s: Segment, low: real, high: real, levels: nat) returns (f: real)
    requires ValidScene(c) && low < high && EvidenceWithin(c, s, low, high, levels)
    ensures low <= f <= high && Distance(c, s, f) < c.limit
    decreases levels
  {
    var middle := (low + high) / 2.0;
    if Certified(c, s, low, high) {
      CertifiedDistances(c, s, low, high, low);
      f := low;
    } else if IsCapture(c, s, low) || IsCapture(c, s, middle) || IsCapture(c, s, high) {
      f := if IsCapture(c, s, low) then low else if IsCapture(c, s, middle) then middle else high;
    } else if EvidenceWithin(c, s, low, middle, levels - 1) {
      f := EvidenceIsNear(c, s, low, middle, levels - 1);
    } else {
      f := EvidenceIsNear(c, s, middle, high, levels - 1);
    }
  }

  /** The bisection succeeds exactly when its tree holds evidence: pruning loses none. */
  lemma {:induction false} SearchExactly(c: Scene, s: Segment, low: real, high: real, depth: nat, maxDepth: nat)
    requires ValidScene(c) && low < high && depth <= maxDepth
    ensures Search(c, s, low, high, depth, maxDepth) <==> EvidenceWithin(c, s, low, high, maxDepth - depth)
    decreases maxDepth - depth
  {
    var middle := (low + high) / 2.0;
    if EvidenceWithin(c, s, low, high, maxDepth - depth) {
      var f := EvidenceIsNear(c, s, low, high, maxDepth - depth);
      NotPruned(c, s, low, high, f);
    }
    hide Certified, IsCapture, ClosestDistance, Distance;
    if depth < maxDepth {
      SearchExactly(c, s, low, middle, depth + 1, maxDepth);
      SearchExactly(c, s, middle, high, depth + 1, maxDepth);
    }
  }

  /** Exactly when an interval is certified: with half of what the robots move against
      each other over it, the distance at its middle stays above zero and below the
      limit, and the remaining tests pass. */
  lemma CertifiedExactly(c: Scene, s: Segment, low: real, high: real, drift: real)
    requires ValidScene(c) && low <= high && drift >= 0.0
    requires var dx, dy := RelX(s, high) - RelX(s, low), RelY(s, high) - RelY(s, low);
             Times(drift + drift, drift + drift) == Times(dx, dx) + Times(dy, dy)
    ensures Certified(c, s, low, high) <==>
              drift < Distance(c, s, (low + high) / 2.0) < c.limit - drift && c.sweepClear(s, low, high)
  {
    DriftIs(c, s, low, high, drift);
    hide Distance, Drift, IsHypot, Times, RelX, RelY;
  }

  lemma DriftIs(c: Scene, s: Segment, low: real, high: real, drift: real)
    requires ValidScene(c) && low <= high && drift >= 0.0
    requires var dx, dy := RelX(s, high) - RelX(s, low), RelY(s, high) - RelY(s, low);
             Times(drift + drift, drift + drift) == Times(dx, dx) + Times(dy, dy)
    ensures Drift(c, s, (high - low) / 2.0) == drift
  {
    RelOver(s, low, high);
    hide RelX, RelY, VelocityX, VelocityY, Times;
    var dx, dy := RelX(s, high) - RelX(s, low), RelY(s, high) - RelY(s, low);
    HalfTravel(VelocityX(s), VelocityY(s), c.hypot(VelocityX(s), VelocityY(s)), high - low, dx, dy, drift);
  }

  lemma HalfTravel(vx: real, vy: real, speed: real, w: real, dx: real, dy: real, drift: real)
    requires speed >= 0.0 && speed * speed == vx * vx + vy * vy && w >= 0.0 && drift >= 0.0
    requires dx == vx * w && dy == vy * w
    requires Times(drift + drift, drift + drift) == Times(dx, dx) + Times(dy, dy)
    ensures speed * (w / 2.0) == drift
  {
    ScaledSquares(vx, vy, speed, w);
    SameSign(speed, w);
    SameRoot(speed * w, drift + drift);
  }

  lemma RelOver(s: Segment, low: real, high: real)
    ensures RelX(s, high) - RelX(s, low) == VelocityX(s) * (high - low)
    ensures RelY(s, high) - RelY(s, low) == VelocityY(s) * (high - low)
  {
  }

  lemma ScaledSquares(x: real, y: real, speed: real, w: real)
    requires speed * speed == x * x + y * y
    ensures Times(speed * w, speed * w) == Times(x * w, x * w) + Times(y * w, y * w)
  {
    assert (speed * w) * (speed * w) == (speed * speed) * (w * w);
    assert (x * w) * (x * w) == (x * x) * (w * w);
    assert (y * w) * (y * w) == (y * y) * (w * w);
  }

  lemma SameRoot(x: real, y: real)
    requires x >= 0.0 && y >= 0.0 && Times(x, x) == Times(y, y)
    ensures x == y
  {
    SquareReflects(x, y);
    SquareReflects(y, x);
  }

  lemma GridWithin(low: real, high: real, k: int, n: nat)
    requires low < high && 0 <= k <= n && n > 0
    ensures low <= GridPoint(low, high, k, n) <= high
  {
    var q := k as real / n as real;
    assert q * n as real == k as real;
    ScaleOrder(0.0, q, n as real);
    ScaleOrder(q, 1.0, n as real);
    SameSign(high - low, q);
    SameSign(high - low, 1.0 - q);
    assert (high - low) * (1.0 - q) == (high - low) - (high - low) * q;
  }

  lemma GridHalves(low: real, high: real, k: int, n: nat)
    requires n > 0
    ensures var middle := (low + high) / 2.0;
            && GridPoint(low, high, k, 2 * n) == GridPoint(low, middle, k, n)
            && GridPoint(low, high, k, 2 * n) == GridPoint(middle, high, k - n, n)
  {
    var nr, kr := n as real, k as real;
    var q := kr / nr;
    assert q * nr == kr;
    assert (2 * n) as real == 2.0 * nr;
    assert kr / (2.0 * nr) == q / 2.0;
    assert (k - n) as real == kr - nr;
    assert (q - 1.0) * nr == kr - nr;
    DivideOut(kr - nr, q - 1.0, nr);
    var w := high - low;
    assert w * (q / 2.0) == (w / 2.0) * q;
    assert (w / 2.0) * (q - 1.0) == (w / 2.0) * q - w / 2.0;
  }

  lemma DivideOut(x: real, y: real, z: real)
    requires z != 0.0 && x == y * z
    ensures x / z == y
  {
  }

  lemma NotPruned(c: Scene, s: Segment, low: real, high: real, f: real)
    requires ValidScene(c) && low < high && low <= f <= high && Distance(c, s, f) < c.limit
    ensures ClosestDistance(c, s, low, high) < c.limit
  {
    if ClosestDistance(c, s, low, high) >= c.limit {
      PruneIsSafe(c, s, low, high, f);
    }
  }

  /** The search is complete on its dyadic grid: a capture at any of the grid
      points of the deepest level is never missed. */
  lemma {:induction false} SearchIsComplete(
    c: Scene, s: Segment, low: real, high: real, depth: nat, maxDepth: nat, k: int)
    requires ValidScene(c) && low < high && depth <= maxDepth
    requires 0 <= k <= Pow2(maxDepth + 1 - depth)
    requires IsCapture(c, s, GridPoint(low, high, k, Pow2(maxDepth + 1 - depth)))
    ensures Search(c, s, low, high, depth, maxDepth)
    decreases maxDepth - depth
  {
    var n := Pow2(maxDepth - depth);
    var f := GridPoint(low, high, k, 2 * n);
    GridWithin(low, high, k, 2 * n);
    NotPruned(c, s, low, high, f);
    var middle := (low + high) / 2.0;
    GridHalves(low, high, k, n);
    if depth == maxDepth {
      assert n == 1 && (k == 0 || k == 1 || k == 2);
      assert f == low || f == middle || f == high;
    } else if k <= n {
      SearchIsComplete(c, s, low, middle, depth + 1, maxDepth, k);
    } else {
      SearchIsComplete(c, s, middle, high, depth + 1, maxDepth, k - n);
    }
  }

  // ---------------------------------------------------------------- trajectory

  datatype Sample = Sample(stamp: nat, pose: Pose)

  datatype CaptureResult = Interval(index: nat, lower: nat, upper: nat) | NoCapture | InvalidInput

  predicate ValidTrajectories(guardian: seq<Sample>, explorer: seq<Sample>) {
    && |guardian| >= 2 && |guardian| == |explorer|
    && (forall i :: 0 <= i < |guardian| ==> guardian[i].stamp == explorer[i].stamp)
    && (forall i :: 0 <= i < |guardian| - 1 ==> guardian[i].stamp < guardian[i + 1].stamp)
  }

  function SegmentAt(guardian: seq<Sample>, explorer: seq<Sample>, i: nat): Segment
    requires i + 1 < |guardian| && |guardian| == |explorer|
  {
    Segment(guardian[i].pose, guardian[i + 1].pose, explorer[i].pose, explorer[i + 1].pose)
  }

  /** r names the first segment whose bisection succeeds, if any does. */
  ghost predicate FirstSuccess(guardian: seq<Sample>, explorer: seq<Sample>, c: Scene, maxDepth: nat, r: CaptureResult)
    requires ValidTrajectories(guardian, explorer)
  {
    && !r.InvalidInput?
    && (r.Interval? ==>
          && r.index + 1 < |guardian|
          && Search(c, SegmentAt(guardian, explorer, r.index), 0.0, 1.0, 0, maxDepth)
          && r.lower == guardian[r.index].stamp && r.upper == guardian[r.index + 1].stamp)
    && forall i: nat :: i < (if r.Interval? then r.index else |guardian| - 1) ==>
         !Search(c, SegmentAt(guardian, explorer, i), 0.0, 1.0, 0, maxDepth)
  }

  method FirstCaptureInterval(guardian: seq<Sample>, explorer: seq<Sample>, c: Scene, maxDepth: int)
    returns (r: CaptureResult)
    ensures r.InvalidInput? <==> !ValidTrajectories(guardian, explorer) || c.limit <= 0.0 || !(1 <= maxDepth <= 16)
    ensures !r.InvalidInput? ==> FirstSuccess(guardian, explorer, c, maxDepth, r)
  {
    if !ValidTrajectories(guardian, explorer) || c.limit <= 0.0 || !(1 <= maxDepth <= 16) {
      return InvalidInput;
    }
    for index := 0 to |guardian| - 1
      invariant forall i: nat :: i < index ==> !Search(c, SegmentAt(guardian, explorer, i), 0.0, 1.0, 0, maxDepth)
    {
      if Search(c, SegmentAt(guardian, explorer, index), 0.0, 1.0, 0, maxDepth) {
        return Interval(index, guardian[index].stamp, guardian[index + 1].stamp);
      }
    }
    return NoCapture;
  }

  /** A capture at a dyadic fraction of segment j makes the search return an
      interval no later than segment j. */
  lemma CaptureIsFound(
    guardian: seq<Sample>, explorer: seq<Sample>, c: Scene, maxDepth: nat, j: nat, k: int, r: CaptureResult)
    requires ValidScene(c) && ValidTrajectories(guardian, explorer) && j + 1 < |guardian|
    requires FirstSuccess(guardian, explorer, c, maxDepth, r)
    requires 0 <= k <= Pow2(maxDepth + 1)
    requires IsCapture(c, SegmentAt(guardian, explorer, j), GridPoint(0.0, 1.0, k, Pow2(maxDepth + 1)))
    ensures r.Interval? && r.index <= j
  {
    SearchIsComplete(c, SegmentAt(guardian, explorer, j), 0.0, 1.0, 0, maxDepth, k);
  }

  /** The capture rule on one pair of poses. */
  predicate CapturePose(c: Scene, g: Pose, e: Pose) {
    && c.hypot(e.x - g.x, e.y - g.y) != 0.0 && !c.blocked(g, e)
    && c.hypot(e.x - g.x, e.y - g.y) < c.limit && c.bearingWithin(g, e)
  }

  /** In particular a capture at any trajectory sample is found. */
  lemma SampleCaptureIsFound(
    guardian: seq<Sample>, explorer: seq<Sample>, c: Scene, maxDepth: nat, j: nat, r: CaptureResult)
    requires ValidScene(c) && ValidTrajectories(guardian, explorer) && j < |guardian|
    requires FirstSuccess(guardian, explorer, c, maxDepth, r)
    requires CapturePose(c, guardian[j].pose, explorer[j].pose)
    ensures r.Interval? && r.index <= j
  {
    var n := Pow2(maxDepth + 1);
    hide *;
    if j + 1 < |guardian| {
      EndPoints(guardian, explorer, j, n);
      PoseCapture(c, SegmentAt(guardian, explorer, j), GridPoint(0.0, 1.0, 0, n));
      CaptureIsFound(guardian, explorer, c, maxDepth, j, 0, r);
    } else {
      EndPoints(guardian, explorer, j - 1, n);
      PoseCapture(c, SegmentAt(guardian, explorer, j - 1), GridPoint(0.0, 1.0, n, n));
      CaptureIsFound(guardian, explorer, c, maxDepth, j - 1, n, r);
    }
  }

  lemma PoseCapture(c: Scene, s: Segment, f: real)
    ensures IsCapture(c, s, f) <==> CapturePose(c, Guardian(s, f), Explorer(s, f))
  {
    hide Interpolate;
  }

  /** A returned interval really brackets an approach within the limit. */
  lemma FoundIsReal(guardian: seq<Sample>, explorer: seq<Sample>, c: Scene, maxDepth: nat, r: CaptureResult)
    requires ValidScene(c) && ValidTrajectories(guardian, explorer)
    requires FirstSuccess(guardian, explorer, c, maxDepth, r) && r.Interval?
    ensures exists f :: 0.0 <= f <= 1.0 && 0.0 < Distance(c, SegmentAt(guardian, explorer, r.index), f) < c.limit
    ensures HasEvidence(c, SegmentAt(guardian, explorer, r.index), 0.0, 1.0)
  {
    SearchIsSound(c, SegmentAt(guardian, explorer, r.index), 0.0, 1.0, 0, maxDepth);
    SearchHasEvidence(c, SegmentAt(guardian, explorer, r.index), 0.0, 1.0, 0, maxDepth);
  }

  /** Grid points 0 and n of a segment are its samples. */
  lemma EndPoints(guardian: seq<Sample>, explorer: seq<Sample>, i: nat, n: nat)
    requires i + 1 < |guardian| && |guardian| == |explorer| && n > 0
    ensures var s := SegmentAt(guardian, explorer, i);
            && Guardian(s, GridPoint(0.0, 1.0, 0, n)) == guardian[i].pose
            && Explorer(s, GridPoint(0.0, 1.0, 0, n)) == explorer[i].pose
            && Guardian(s, GridPoint(0.0, 1.0, n, n)) == guardian[i + 1].pose
            && Explorer(s, GridPoint(0.0, 1.0, n, n)) == explorer[i + 1].pose
  {
    DivideOut(n as real, 1.0, n as real);
    DivideOut(0.0, 0.0, n as real);
  }
}
