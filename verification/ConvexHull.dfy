/** Andrew's monotone chain over exact coordinates. */
module ConvexHull {

  datatype Point = Point(x: real, y: real)

  function Cross(o: Point, a: Point, b: Point): real {
    (a.x - o.x) * (b.y - o.y) - (a.y - o.y) * (b.x - o.x)
  }

  /** Lexicographic order on coordinates. */
  predicate Lex(a: Point, b: Point) { a.x < b.x || (a.x == b.x && a.y <= b.y) }

  function Negate(p: Point): Point { Point(-p.x, -p.y) }

  /** The traversal order of a chain: ascending for the lower hull, descending
      for the upper. */
  predicate Before(up: bool, a: Point, b: Point) { if up then Lex(a, b) else Lex(b, a) }

  ghost predicate Ordered(up: bool, s: seq<Point>) {
    forall i, j :: 0 <= i < j < |s| ==> Before(up, s[i], s[j]) && s[i] != s[j]
  }

  ghost predicate LeftOf(a: Point, b: Point, q: Point) { Cross(a, b, q) >= 0.0 }

  /** Every turn of the chain is strictly to the left. */
  ghost predicate StrictTurns(c: seq<Point>) {
    forall i :: 0 <= i < |c| - 2 ==> Cross(c[i], c[i + 1], c[i + 2]) > 0.0
  }

  /** Every point of s lies on or left of every directed edge of the chain. */
  ghost predicate Covers(c: seq<Point>, s: seq<Point>) {
    forall i, q :: 0 <= i < |c| - 1 && q in s ==> LeftOf(c[i], c[i + 1], q)
  }

  // ---------------------------------------------------------- orientation

  lemma NegateCross(o: Point, a: Point, b: Point)
    ensures Cross(Negate(o), Negate(a), Negate(b)) == Cross(o, a, b)
    ensures Lex(Negate(a), Negate(b)) <==> Lex(b, a)
  {
  }

  /** Dependence of three plane vectors from a common origin. */
  lemma Exchange(a: Point, m: Point, p: Point, q: Point)
    ensures (m.x - a.x) * Cross(a, p, q) == (p.x - a.x) * Cross(a, m, q) - (q.x - a.x) * Cross(a, m, p)
    ensures (m.y - a.y) * Cross(a, p, q) == (p.y - a.y) * Cross(a, m, q) - (q.y - a.y) * Cross(a, m, p)
  {
    var mx, my, px, py, qx, qy := m.x - a.x, m.y - a.y, p.x - a.x, p.y - a.y, q.x - a.x, q.y - a.y;
    assert mx * (px * qy - py * qx) == px * (mx * qy - my * qx) - qx * (mx * py - my * px);
    assert my * (px * qy - py * qx) == py * (mx * qy - my * qx) - qy * (mx * py - my * px);
  }

  lemma Rotate(o: Point, a: Point, b: Point)
    ensures Cross(a, b, o) == Cross(o, a, b) && Cross(o, b, a) == -Cross(o, a, b)
  {
  }

  lemma NonnegativeFactor(k: real, x: real, y: real)
    requires k > 0.0 && k * x == y && y >= 0.0
    ensures x >= 0.0
  {
    NegativeProduct(k, x);
  }

  lemma NegativeProduct(k: real, x: real)
    requires k > 0.0
    ensures x < 0.0 ==> k * x < 0.0
  {
  }

  lemma Product(x: real, y: real)
    ensures x >= 0.0 && y >= 0.0 ==> x * y >= 0.0
    ensures x >= 0.0 && y <= 0.0 ==> x * y <= 0.0
    ensures x > 0.0 && y > 0.0 ==> x * y > 0.0
  {
  }

  /** Popping m between a and p keeps a point q between a and m on the left. */
  lemma PopBefore(a: Point, q: Point, m: Point, p: Point)
    requires Lex(a, q) && Lex(q, m) && Lex(m, p) && a != m && m != p
    requires LeftOf(a, m, q) && Cross(a, m, p) <= 0.0
    ensures LeftOf(a, p, q)
  {
    Exchange(a, m, p, q);
    Product(p.x - a.x, Cross(a, m, q));
    Product(q.x - a.x, Cross(a, m, p));
    if m.x > a.x {
      NonnegativeFactor(m.x - a.x, Cross(a, p, q), (p.x - a.x) * Cross(a, m, q) - (q.x - a.x) * Cross(a, m, p));
    } else {
      assert q.x == a.x && Cross(a, p, q) == (p.x - a.x) * (q.y - a.y);
      Product(p.x - a.x, q.y - a.y);
    }
  }

  /** Popping m keeps a point q beyond m on the left as well. */
  lemma PopAfter(a: Point, m: Point, q: Point, p: Point)
    requires Lex(a, m) && Lex(m, q) && Lex(q, p) && a != m && m != p
    requires LeftOf(m, p, q) && Cross(a, m, p) <= 0.0
    ensures LeftOf(a, p, q)
  {
    // Around p: the vectors to q, m and a are dependent.
    Exchange(p, m, a, q);
    Rotate(a, p, q); Rotate(m, p, q); Rotate(a, m, p); Rotate(p, a, m); Rotate(p, m, q); Rotate(p, a, q);
    var paq, pmq, pma := Cross(p, a, q), Cross(p, m, q), Cross(p, m, a);
    assert (m.x - p.x) * paq == (a.x - p.x) * pmq - (q.x - p.x) * pma;
    Product(p.x - a.x, -pmq);
    Product(p.x - q.x, pma);
    if m.x < p.x {
      NonnegativeFactor(p.x - m.x, -paq, (p.x - a.x) * pmq * -1.0 + (p.x - q.x) * pma * 1.0);
    } else {
      assert q.x == p.x && m.x == p.x;
      assert paq == (a.x - p.x) * (q.y - p.y);
      Product(p.x - a.x, p.y - q.y);
    }
  }

  /** A point left of the last edge and not beyond its end stays left of a new
      edge that turns left. */
  lemma TurnKeepsLeft(a: Point, t: Point, p: Point, q: Point)
    requires Lex(a, t) && Lex(t, p) && Lex(q, t) && a != t && t != p
    requires LeftOf(a, t, q) && Cross(a, t, p) > 0.0
    ensures LeftOf(t, p, q)
  {
    Exchange(t, a, p, q);
    Rotate(a, t, q); Rotate(a, t, p); Rotate(t, a, q); Rotate(t, a, p); Rotate(t, q, a); Rotate(t, p, a);
    var tpq, taq, tap := Cross(t, p, q), Cross(t, a, q), Cross(t, a, p);
    assert taq == -Cross(a, t, q) && tap == -Cross(a, t, p);
    Product(p.x - t.x, -taq);
    Product(t.x - q.x, -tap);
    if a.x < t.x {
      NonnegativeFactor(t.x - a.x, tpq, (p.x - t.x) * -taq + (t.x - q.x) * -tap);
    } else {
      VerticalTurn(a, t, p);
    }
  }

  /** A vertical edge cannot be followed by a left turn in this order. */
  lemma VerticalTurn(a: Point, t: Point, p: Point)
    requires a.x == t.x && a.y <= t.y && Lex(t, p)
    ensures Cross(a, t, p) <= 0.0
  {
    Product(t.y - a.y, p.x - a.x);
  }

  /** A point left of the later edge is left of the earlier one. */
  lemma EarlierEdge(a: Point, b: Point, c: Point, p: Point)
    requires Lex(a, b) && Lex(b, c) && Lex(c, p) && a != b && b != c
    requires Cross(a, b, c) > 0.0 && LeftOf(b, c, p)
    ensures LeftOf(a, b, p)
  {
    Exchange(b, c, p, a);
    Rotate(a, b, c); Rotate(a, b, p); Rotate(b, c, p); Rotate(b, a, c); Rotate(b, a, p); Rotate(b, p, a);
    Rotate(b, c, a);
    var bpa, bca, bcp := Cross(b, p, a), Cross(b, c, a), Cross(b, c, p);
    assert bpa == Cross(a, b, p) && bca == Cross(a, b, c);
    Product(p.x - b.x, bca);
    Product(b.x - a.x, bcp);
    if b.x < c.x {
      NonnegativeFactor(c.x - b.x, bpa, (p.x - b.x) * bca + (b.x - a.x) * bcp);
    } else {
      VerticalEdge(a, b, c, p);
    }
  }

  lemma VerticalEdge(a: Point, b: Point, c: Point, p: Point)
    requires b.x == c.x && b.y < c.y && Lex(a, b) && Lex(c, p) && LeftOf(b, c, p)
    ensures LeftOf(a, b, p)
  {
    assert Cross(b, c, p) == -((c.y - b.y) * (p.x - b.x));
    if p.x > b.x { Product(c.y - b.y, p.x - b.x); }
    assert p.x == b.x;
    assert Cross(a, b, p) == (b.x - a.x) * (p.y - b.y);
    Product(b.x - a.x, p.y - b.y);
  }

  // ------------------------------------------------- either direction

  lemma PopBefore2(up: bool, a: Point, q: Point, m: Point, p: Point)
    requires Before(up, a, q) && Before(up, q, m) && Before(up, m, p) && a != m && m != p
    requires LeftOf(a, m, q) && Cross(a, m, p) <= 0.0
    ensures LeftOf(a, p, q)
  {
    if up {
      PopBefore(a, q, m, p);
    } else {
      NegateCross(a, m, q); NegateCross(a, m, p); NegateCross(a, p, q);
      PopBefore(Negate(a), Negate(q), Negate(m), Negate(p));
    }
  }

  lemma PopAfter2(up: bool, a: Point, m: Point, q: Point, p: Point)
    requires Before(up, a, m) && Before(up, m, q) && Before(up, q, p) && a != m && m != p
    requires LeftOf(m, p, q) && Cross(a, m, p) <= 0.0
    ensures LeftOf(a, p, q)
  {
    if up {
      PopAfter(a, m, q, p);
    } else {
      NegateCross(m, p, q); NegateCross(a, m, p); NegateCross(a, p, q);
      PopAfter(Negate(a), Negate(m), Negate(q), Negate(p));
    }
  }

  lemma TurnKeepsLeft2(up: bool, a: Point, t: Point, p: Point, q: Point)
    requires Before(up, a, t) && Before(up, t, p) && Before(up, q, t) && a != t && t != p
    requires LeftOf(a, t, q) && Cross(a, t, p) > 0.0
    ensures LeftOf(t, p, q)
  {
    if up {
      TurnKeepsLeft(a, t, p, q);
    } else {
      NegateCross(a, t, q); NegateCross(a, t, p); NegateCross(t, p, q);
      TurnKeepsLeft(Negate(a), Negate(t), Negate(p), Negate(q));
    }
  }

  lemma EarlierEdge2(up: bool, a: Point, b: Point, c: Point, p: Point)
    requires Before(up, a, b) && Before(up, b, c) && Before(up, c, p) && a != b && b != c
    requires Cross(a, b, c) > 0.0 && LeftOf(b, c, p)
    ensures LeftOf(a, b, p)
  {
    if up {
      EarlierEdge(a, b, c, p);
    } else {
      NegateCross(a, b, c); NegateCross(b, c, p); NegateCross(a, b, p);
      EarlierEdge(Negate(a), Negate(b), Negate(c), Negate(p));
    }
  }

  // -------------------------------------------------------------- the chain

  lemma BeforeTotal(up: bool, a: Point, b: Point, c: Point)
    ensures Before(up, a, b) || Before(up, b, a)
    ensures Before(up, a, b) && Before(up, b, c) ==> Before(up, a, c)
    ensures Before(up, a, b) && Before(up, b, a) ==> a == b
  {
  }

  /** A chain over the processed points `done`: a subsequence starting at the
      first of them, turning strictly left, with all of them on its left. */
  ghost predicate ChainOver(up: bool, c: seq<Point>, done: seq<Point>) {
    && (c == [] <==> done == [])
    && (c != [] ==> c[0] == done[0])
    && (forall p :: p in c ==> p in done)
    && Ordered(up, c) && StrictTurns(c) && Covers(c, done)
  }

  /** The part of the invariant about the point p being added: processed points
      not before the current top lie left of the prospective edge to p. */
  ghost predicate TailLeft(up: bool, c: seq<Point>, done: seq<Point>, p: Point)
    requires c != []
  {
    forall q :: q in done && Before(up, c[|c| - 1], q) ==> LeftOf(c[|c| - 1], p, q)
  }

  lemma PopKeeps(up: bool, c: seq<Point>, done: seq<Point>, p: Point)
    requires ChainOver(up, c, done) && |c| >= 2
    requires forall q :: q in done ==> Before(up, q, p) && q != p
    requires TailLeft(up, c, done, p)
    requires Cross(c[|c| - 2], c[|c| - 1], p) <= 0.0
    ensures ChainOver(up, c[..|c| - 1], done) && TailLeft(up, c[..|c| - 1], done, p)
  {
    var n := |c|;
    var d := c[..n - 1];
    var a, m := c[n - 2], c[n - 1];
    assert m in c && a in c && d[n - 2] == a;
    assert Before(up, a, m) && a != m;
    forall q | q in done && Before(up, a, q) ensures LeftOf(a, p, q) {
      BeforeTotal(up, q, m, p);
      if Before(up, m, q) {
        PopAfter2(up, a, m, q, p);
      } else {
        assert LeftOf(c[n - 2], c[n - 1], q);
        PopBefore2(up, a, q, m, p);
      }
    }
  }

  /** The added point is left of every edge already in the chain. */
  lemma {:induction false} NewPointLeft(up: bool, c: seq<Point>, p: Point, i: nat)
    requires Ordered(up, c) && StrictTurns(c) && i + 1 < |c|
    requires Before(up, c[|c| - 1], p) && Cross(c[|c| - 2], c[|c| - 1], p) > 0.0
    ensures LeftOf(c[i], c[i + 1], p)
    decreases |c| - i
  {
    if i + 2 < |c| {
      NewPointLeft(up, c, p, i + 1);
      assert i + 3 < |c| ==> Before(up, c[i + 2], c[|c| - 1]);
      BeforeTotal(up, c[i + 2], c[|c| - 1], p);
      EarlierEdge2(up, c[i], c[i + 1], c[i + 2], p);
    }
  }

  lemma PushOrdered(up: bool, c: seq<Point>, p: Point)
    requires Ordered(up, c) && StrictTurns(c)
    requires forall q :: q in c ==> Before(up, q, p) && q != p
    requires |c| >= 2 ==> Cross(c[|c| - 2], c[|c| - 1], p) > 0.0
    ensures Ordered(up, c + [p]) && StrictTurns(c + [p])
  {
    hide Before, Cross;
    var e := c + [p];
    forall i, j | 0 <= i < j < |e| ensures Before(up, e[i], e[j]) && e[i] != e[j] {
      assert e[i] == c[i] && c[i] in c;
    }
    forall i | 0 <= i < |e| - 2 ensures Cross(e[i], e[i + 1], e[i + 2]) > 0.0 {
      assert e[i] == c[i] && e[i + 1] == c[i + 1];
      if i < |c| - 2 { assert e[i + 2] == c[i + 2]; }
    }
  }

  lemma PushKeeps(up: bool, c: seq<Point>, done: seq<Point>, p: Point)
    requires ChainOver(up, c, done) && c != []
    requires forall q :: q in done ==> Before(up, q, p) && q != p && Before(up, done[0], q)
    requires TailLeft(up, c, done, p)
    requires |c| >= 2 ==> Cross(c[|c| - 2], c[|c| - 1], p) > 0.0
    ensures ChainOver(up, c + [p], done + [p])
  {
    var n := |c|;
    var e := c + [p];
    var t := c[n - 1];
    assert t in c;
    PushOrdered(up, c, p);
    forall i, q | 0 <= i < |e| - 1 && q in done + [p] ensures LeftOf(e[i], e[i + 1], q) {
      if i < n - 1 {
        if q == p { NewPointLeft(up, c, p, i); } else { assert LeftOf(c[i], c[i + 1], q); }
      } else if q == p {
        assert Cross(t, p, p) == 0.0;
      } else {
        BeforeTotal(up, q, t, p);
        if !Before(up, t, q) {
          assert n >= 2;
          assert LeftOf(c[n - 2], c[n - 1], q);
          TurnKeepsLeft2(up, c[n - 2], t, p, q);
        }
      }
    }
  }

  /** Points already processed come before the next one and not before the first. */
  lemma ProcessedSoFar(up: bool, points: seq<Point>, k: nat)
    requires Ordered(up, points) && k < |points|
    ensures forall q :: q in points[..k] ==>
              Before(up, q, points[k]) && q != points[k] && Before(up, points[..k][0], q)
  {
  }

  /** The last processed point is the only one not before itself. */
  lemma TopStartsTail(up: bool, points: seq<Point>, k: nat, chain: seq<Point>)
    requires Ordered(up, points) && 0 < k < |points| && chain != [] && chain[|chain| - 1] == points[k - 1]
    ensures TailLeft(up, chain, points[..k], points[k])
  {
    var t := points[k - 1];
    forall q | q in points[..k] && Before(up, t, q) ensures LeftOf(t, points[k], q) {
      assert q == t by {
        var i :| 0 <= i < k && points[i] == q;
        BeforeTotal(up, q, t, q);
      }
    }
  }

  lemma SinglePoint(up: bool, p: Point)
    ensures ChainOver(up, [] + [p], [] + [p]) && ChainOver(up, [], [])
  {
  }

  /** One direction of the monotone chain: push every point, popping while the
      last turn is not strictly left. */
  method BuildChain(points: seq<Point>, ghost up: bool) returns (chain: seq<Point>)
    requires Ordered(up, points)
    ensures ChainOver(up, chain, points)
    ensures points != [] ==> chain[|chain| - 1] == points[|points| - 1]
  {
    chain := [];
    for k := 0 to |points|
      invariant ChainOver(up, chain, points[..k])
      invariant k > 0 ==> chain[|chain| - 1] == points[k - 1]
    {
      hide LeftOf, Before, Ordered, StrictTurns, Covers;
      var point := points[k];
      ghost var done := points[..k];
      assert points[..k + 1] == done + [point];
      ProcessedSoFar(up, points, k);
      if k == 0 {
        SinglePoint(up, point);
      } else {
        TopStartsTail(up, points, k, chain);
      }
      while |chain| >= 2 && Cross(chain[|chain| - 2], chain[|chain| - 1], point) <= 0.0
        invariant k > 0 ==> chain != []
        invariant ChainOver(up, chain, done)
        invariant k > 0 ==> TailLeft(up, chain, done, point)
        invariant k == 0 ==> chain == []
        decreases |chain|
      {
        PopKeeps(up, chain, done, point);
        chain := chain[..|chain| - 1];
      }
      if k > 0 {
        PushKeeps(up, chain, done, point);
      }
      chain := chain + [point];
    }
    assert points[..|points|] == points;
  }

  // --------------------------------------------------------------- the hull

  function Reversed(s: seq<Point>): (r: seq<Point>)
    ensures |r| == |s| && forall i :: 0 <= i < |s| ==> r[i] == s[|s| - 1 - i]
    ensures forall p :: p in r <==> p in s
  {
    if s == [] then []
    else
      var r := Reversed(s[1..]) + [s[0]];
      assert forall p :: p in s <==> p == s[0] || p in s[1..];
      r
  }

  /** Sorted without duplicates. */
  function SortUnique(s: seq<Point>): (r: seq<Point>)
    ensures Ordered(true, r)
    ensures forall p :: p in r <==> p in s
  {
    if s == [] then []
    else
      assert forall p :: p in s <==> p == s[0] || p in s[1..];
      InsertUnique(s[0], SortUnique(s[1..]))
  }

  lemma PrependOrdered(p: Point, s: seq<Point>)
    requires Ordered(true, s) && forall q :: q in s ==> Lex(p, q) && p != q
    ensures Ordered(true, [p] + s)
  {
    var r := [p] + s;
    forall i, j | 0 <= i < j < |r| ensures Before(true, r[i], r[j]) && r[i] != r[j] {
      assert r[j] == s[j - 1] && s[j - 1] in s;
      if i > 0 { assert r[i] == s[i - 1]; }
    }
  }

  lemma HeadIsLeast(s: seq<Point>)
    requires Ordered(true, s) && s != []
    ensures Ordered(true, s[1..]) && forall q :: q in s[1..] ==> Lex(s[0], q) && s[0] != q
    ensures forall q :: q in s <==> q == s[0] || q in s[1..]
  {
    forall q | q in s[1..] ensures Lex(s[0], q) && s[0] != q {
      var i :| 0 <= i < |s| - 1 && s[1..][i] == q;
      assert Before(true, s[0], s[i + 1]) && s[0] != s[i + 1];
    }
  }

  function InsertUnique(p: Point, s: seq<Point>): (r: seq<Point>)
    requires Ordered(true, s)
    ensures Ordered(true, r)
    ensures forall q :: q in r <==> q == p || q in s
  {
    if s == [] then [p]
    else
      HeadIsLeast(s);
      if p == s[0] then s
      else if Lex(p, s[0]) then
        PrependOrdered(p, s);
        [p] + s
      else
        var rest := InsertUnique(p, s[1..]);
        PrependOrdered(s[0], rest);
        [s[0]] + rest
  }

  /** The i-th directed edge of the closed polygon. */
  ghost predicate EdgeAt(hull: seq<Point>, i: int, a: Point, b: Point) {
    0 <= i < |hull| && a == hull[i] && b == hull[if i + 1 == |hull| then 0 else i + 1]
  }

  /** The hull is a lower chain from the least to the greatest input point and an
      upper chain back, both monotone and turning strictly left. */
  ghost predicate MadeOfChains(points: seq<Point>, hull: seq<Point>, lower: seq<Point>, upper: seq<Point>) {
    && |lower| >= 2 && |upper| >= 2 && hull == lower[..|lower| - 1] + upper[..|upper| - 1]
    && lower[|lower| - 1] == upper[0] && upper[|upper| - 1] == lower[0]
    && Ordered(true, lower) && Ordered(false, upper) && StrictTurns(lower) && StrictTurns(upper)
    && (forall p :: p in points ==> Lex(lower[0], p) && Lex(p, upper[0]))
    && (!Collinear(points) ==> StrictJoints(lower, upper))
  }

  ghost predicate AllEqual(points: seq<Point>) {
    forall i, j :: 0 <= i < |points| && 0 <= j < |points| ==> points[i] == points[j]
  }

  lemma FewUnique(points: seq<Point>, unique: seq<Point>)
    requires Ordered(true, unique) && forall p :: p in unique <==> p in points
    ensures |unique| <= 1 <==> AllEqual(points)
    ensures |unique| > 1 ==> forall p :: p in points ==> Lex(unique[0], p) && Lex(p, unique[|unique| - 1])
  {
    if |unique| <= 1 {
      forall i, j | 0 <= i < |points| && 0 <= j < |points| ensures points[i] == points[j] {
        assert points[i] in unique && points[j] in unique;
      }
    } else {
      assert unique[0] in points && unique[1] in points && unique[0] != unique[1];
      forall p | p in points ensures Lex(unique[0], p) && Lex(p, unique[|unique| - 1]) {
        var i :| 0 <= i < |unique| && unique[i] == p;
      }
    }
  }

  ghost predicate Collinear(points: seq<Point>) {
    forall a, b, c :: a in points && b in points && c in points ==> Cross(a, b, c) == 0.0
  }

  /** The closed polygon also turns strictly left where the chains meet. */
  ghost predicate StrictJoints(lower: seq<Point>, upper: seq<Point>)
    requires |lower| >= 2 && |upper| >= 2
  {
    && Cross(lower[|lower| - 2], lower[|lower| - 1], upper[1]) > 0.0
    && Cross(upper[|upper| - 2], upper[|upper| - 1], lower[1]) > 0.0
  }

  /** Vectors from a lexicographically greatest point: v continues u backwards, so
      nothing can lie left of both unless it lies on their line. */
  lemma FlatVectors(ux: real, uy: real, vx: real, vy: real, wx: real, wy: real)
    requires (ux < 0.0 || (ux == 0.0 && uy < 0.0)) && (vx < 0.0 || (vx == 0.0 && vy < 0.0))
    requires ux * vy == uy * vx && ux * wy - uy * wx <= 0.0 && vx * wy - vy * wx >= 0.0
    ensures ux * wy - uy * wx == 0.0
  {
    var uw, vw := ux * wy - uy * wx, vx * wy - vy * wx;
    if ux < 0.0 {
      if vx == 0.0 { Product(-ux, -vy); }
      assert ux * vw == vx * uw by {
        assert ux * vw == vx * (ux * wy) - (ux * vy) * wx;
        assert vx * uw == vx * (ux * wy) - (uy * vx) * wx;
      }
      FlatSign(ux, vx, uw, vw);
    } else {
      if vx < 0.0 { Product(-uy, -vx); }
      assert uw == -uy * wx && vw == -vy * wx;
      FlatSign(uy, vy, uw, vw) by { assert uy * vw == vy * uw; }
    }
  }

  lemma FlatSign(u: real, v: real, uw: real, vw: real)
    requires u < 0.0 && v < 0.0 && u * vw == v * uw && uw <= 0.0 && vw >= 0.0
    ensures uw == 0.0
  {
    Product(-u, vw);
    if uw < 0.0 { Product(-v, -uw); }
  }

  /** A flat joint at the greatest point flattens everything. */
  lemma FlatJoint(a: Point, m: Point, b: Point, q: Point)
    requires Lex(a, m) && a != m && Lex(b, m) && b != m
    requires Cross(a, m, b) == 0.0 && Cross(a, m, q) >= 0.0 && Cross(m, b, q) >= 0.0
    ensures Cross(a, m, q) == 0.0
  {
    var ux, uy, vx, vy, wx, wy := a.x - m.x, a.y - m.y, b.x - m.x, b.y - m.y, q.x - m.x, q.y - m.y;
    assert Cross(a, m, b) == -(ux * vy - uy * vx);
    assert Cross(a, m, q) == -(ux * wy - uy * wx);
    assert Cross(m, b, q) == vx * wy - vy * wx;
    FlatVectors(ux, uy, vx, vy, wx, wy);
  }

  lemma OnLine(a: Point, m: Point, p: Point, q: Point)
    requires a != m && Cross(a, m, p) == 0.0 && Cross(a, m, q) == 0.0
    ensures Cross(a, p, q) == 0.0
  {
    Exchange(a, m, p, q);
    var c := Cross(a, p, q);
    assert (m.x - a.x) * c == 0.0 && (m.y - a.y) * c == 0.0;
    hide Cross;
    if c != 0.0 {
      ZeroFactor(m.x - a.x, c);
      ZeroFactor(m.y - a.y, c);
    }
  }

  lemma ZeroFactor(x: real, c: real)
    requires x * c == 0.0 && c != 0.0
    ensures x == 0.0
  {
    if c > 0.0 {
      NegativeProduct(c, x);
      NegativeProduct(c, -x);
    } else {
      NegativeProduct(-c, x);
      NegativeProduct(-c, -x);
    }
  }

  lemma LineIsCollinear(points: seq<Point>, a: Point, m: Point)
    requires a != m && forall q :: q in points ==> Cross(a, m, q) == 0.0
    ensures Collinear(points)
  {
    forall p, q, r | p in points && q in points && r in points ensures Cross(p, q, r) == 0.0 {
      OnLine(a, m, p, q);
      OnLine(a, m, q, r);
      OnLine(a, m, r, p);
      AreaSum(a, p, q, r);
    }
  }

  lemma AreaSum(a: Point, p: Point, q: Point, r: Point)
    ensures Cross(p, q, r) == Cross(a, p, q) + Cross(a, q, r) + Cross(a, r, p)
  {
  }

  /** The joint from a over m to b turns strictly left unless all points are collinear. */
  lemma JointTurns(up: bool, points: seq<Point>, a: Point, m: Point, b: Point)
    requires Before(up, a, m) && a != m && Before(up, b, m) && b != m && b in points && !Collinear(points)
    requires forall q :: q in points ==> LeftOf(a, m, q) && LeftOf(m, b, q)
    ensures Cross(a, m, b) > 0.0
  {
    if Cross(a, m, b) == 0.0 {
      forall q | q in points ensures Cross(a, m, q) == 0.0 {
        assert LeftOf(a, m, q) && LeftOf(m, b, q);
        NegateCross(a, m, b);
        NegateCross(a, m, q);
        NegateCross(m, b, q);
        if up { FlatJoint(a, m, b, q); } else { FlatJoint(Negate(a), Negate(m), Negate(b), Negate(q)); }
      }
      LineIsCollinear(points, a, m);
      assert false;
    }
    assert LeftOf(a, m, b);
  }

  lemma JointsTurn(points: seq<Point>, unique: seq<Point>, lower: seq<Point>, upper: seq<Point>, hull: seq<Point>)
    requires (forall p :: p in unique <==> p in points) && !Collinear(points)
    requires Joined(unique, lower, upper, hull) && Ordered(true, lower) && Ordered(false, upper)
    requires (forall p :: p in lower ==> p in unique) && forall p :: p in upper ==> p in unique
    ensures StrictJoints(lower, upper)
  {
    var l, u := |lower|, |upper|;
    assert upper[1] in upper && lower[1] in lower;
    hide LeftOf, Collinear;
    JointTurns(true, points, lower[l - 2], lower[l - 1], upper[1]) by {
      assert Before(true, lower[l - 2], lower[l - 1]) && Before(false, upper[0], upper[1]);
      forall q | q in points ensures LeftOf(lower[l - 2], lower[l - 1], q) && LeftOf(lower[l - 1], upper[1], q) {
        assert q in unique && LeftOf(lower[l - 2], lower[l - 2 + 1], q) && LeftOf(upper[0], upper[0 + 1], q);
      }
    }
    JointTurns(false, points, upper[u - 2], upper[u - 1], lower[1]) by {
      assert Before(false, upper[u - 2], upper[u - 1]) && Before(true, lower[0], lower[1]);
      forall q | q in points ensures LeftOf(upper[u - 2], upper[u - 1], q) && LeftOf(upper[u - 1], lower[1], q) {
        assert q in unique && LeftOf(upper[u - 2], upper[u - 2 + 1], q) && LeftOf(lower[0], lower[0 + 1], q);
      }
    }
  }

  /** The convex hull of any finite point set, collinear and repeated points
      included: its vertices are input points, every input point lies on or left
      of every directed edge, and it is made of two strictly turning chains whose
      joints turn strictly too unless all points lie on one line. */
  method Hull(points: seq<Point>) returns (hull: seq<Point>)
    ensures forall p :: p in hull ==> p in points
    ensures AllEqual(points) ==> hull == if points == [] then [] else [points[0]]
    ensures !AllEqual(points) ==> exists lower, upper :: MadeOfChains(points, hull, lower, upper)
    ensures forall i, a, b, q :: EdgeAt(hull, i, a, b) && q in points ==> LeftOf(a, b, q)
  {
    hide Ordered, StrictTurns, Covers, MadeOfChains, Collinear, LeftOf, EdgeAt;
    var unique := SortUnique(points);
    FewUnique(points, unique);
    if |unique| <= 1 {
      hull := unique;
      OnePoint(points, unique);
      return;
    }
    var lower := BuildChain(unique, true);
    ReversedOrder(unique);
    var upper := BuildChain(Reversed(unique), false);
    hull := lower[..|lower| - 1] + upper[..|upper| - 1];
    HullBuilt(points, unique, lower, upper, hull);
  }

  lemma ReversedOrder(s: seq<Point>)
    requires Ordered(true, s)
    ensures Ordered(false, Reversed(s))
  {
  }

  lemma OnePoint(points: seq<Point>, unique: seq<Point>)
    requires |unique| <= 1 && forall p :: p in unique <==> p in points
    ensures unique == if points == [] then [] else [points[0]]
    ensures forall i, a, b, q :: EdgeAt(unique, i, a, b) && q in points ==> LeftOf(a, b, q)
  {
    if points != [] { assert points[0] in unique; }
    if unique != [] { assert unique[0] in points; }
  }

  lemma HullBuilt(points: seq<Point>, unique: seq<Point>, lower: seq<Point>, upper: seq<Point>, hull: seq<Point>)
    requires |unique| > 1 && Ordered(true, unique) && forall p :: p in unique <==> p in points
    requires forall p :: p in points ==> Lex(unique[0], p) && Lex(p, unique[|unique| - 1])
    requires ChainOver(true, lower, unique) && ChainOver(false, upper, Reversed(unique))
    requires lower[|lower| - 1] == unique[|unique| - 1] && upper[|upper| - 1] == unique[0]
    requires hull == lower[..|lower| - 1] + upper[..|upper| - 1]
    ensures forall p :: p in hull ==> p in points
    ensures MadeOfChains(points, hull, lower, upper)
    ensures forall i, a, b, q :: EdgeAt(hull, i, a, b) && q in points ==> LeftOf(a, b, q)
  {
    hide LeftOf, Ordered, StrictTurns, Covers, Collinear, StrictJoints;
    ChainsJoin(unique, lower, upper, hull);
    if !Collinear(points) { JointsTurn(points, unique, lower, upper, hull); }
    forall i, a, b, q | EdgeAt(hull, i, a, b) && q in points ensures LeftOf(a, b, q) {
      HullEdge(unique, lower, upper, hull, i, a, b, q);
    }
  }

  /** The two chains a hull is put together from. */
  ghost predicate Joined(unique: seq<Point>, lower: seq<Point>, upper: seq<Point>, hull: seq<Point>) {
    && |lower| >= 2 && |upper| >= 2 && lower[|lower| - 1] == upper[0] && upper[|upper| - 1] == lower[0]
    && hull == lower[..|lower| - 1] + upper[..|upper| - 1]
    && Covers(lower, unique) && Covers(upper, unique)
  }

  lemma ChainsJoin(unique: seq<Point>, lower: seq<Point>, upper: seq<Point>, hull: seq<Point>)
    requires |unique| > 1 && Ordered(true, unique)
    requires ChainOver(true, lower, unique) && ChainOver(false, upper, Reversed(unique))
    requires lower[|lower| - 1] == unique[|unique| - 1] && upper[|upper| - 1] == unique[0]
    requires hull == lower[..|lower| - 1] + upper[..|upper| - 1]
    ensures Joined(unique, lower, upper, hull)
  {
    assert unique[0] != unique[|unique| - 1];
    hide LeftOf, Ordered, StrictTurns;
    forall i, q | 0 <= i < |upper| - 1 && q in unique ensures LeftOf(upper[i], upper[i + 1], q) {
      assert q in Reversed(unique);
    }
  }

  lemma HullEdge(unique: seq<Point>, lower: seq<Point>, upper: seq<Point>, hull: seq<Point>,
                 i: int, a: Point, b: Point, q: Point)
    requires Joined(unique, lower, upper, hull) && EdgeAt(hull, i, a, b) && q in unique
    ensures LeftOf(a, b, q)
  {
    hide LeftOf;
    var n := |lower| - 1;
    if i < n {
      assert a == lower[i] && b == lower[i + 1];
    } else {
      assert a == upper[i - n] && b == upper[i - n + 1];
    }
  }
}
