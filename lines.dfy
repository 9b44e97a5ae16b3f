/** The `Line` helper of the pathfinding demo: segment/segment and
    segment/rectangle intersection in the parametric form
    start + u * (end - start), evaluated exactly. */
module Lines {
  import opened Rects

  datatype Line = Line(start: Point, end: Point)

  /** Cross product of the two direction vectors: the common denominator of uA and uB. */
  function Denominator(a: Line, b: Line): int
  {
    (b.end.y - b.start.y) * (a.end.x - a.start.x) - (b.end.x - b.start.x) * (a.end.y - a.start.y)
  }

  /** Numerator of uA, the parameter of the crossing point along `a`. */
  function NumeratorA(a: Line, b: Line): int
  {
    (b.end.x - b.start.x) * (a.start.y - b.start.y) - (b.end.y - b.start.y) * (a.start.x - b.start.x)
  }

  /** Numerator of uB, the parameter of the crossing point along `b`. */
  function NumeratorB(a: Line, b: Line): int
  {
    (a.end.x - a.start.x) * (a.start.y - b.start.y) - (a.end.y - a.start.y) * (a.start.x - b.start.x)
  }

  /** Line.intersects_line: false whenever the denominator is 0 (parallel or degenerate
      segments, collinear overlaps included); otherwise both parameters must lie in [0, 1]. */
  predicate IntersectsLine(a: Line, b: Line)
  {
    var den := Denominator(a, b);
    den != 0 &&
    var uA := NumeratorA(a, b) as real / den as real;
    var uB := NumeratorB(a, b) as real / den as real;
    0.0 <= uA <= 1.0 && 0.0 <= uB <= 1.0
  }

  /** Line.get_lines_from_rect: the four sides, topleft -> topright -> bottomright ->
      bottomleft -> topleft. */
  function SidesOf(r: Rect): (sides: seq<Line>)
    ensures |sides| == 4
    ensures forall i :: 0 <= i < 4 ==> sides[i].end == sides[(i + 1) % 4].start
  {
    [Line(r.TopLeft(), r.TopRight()), Line(r.TopRight(), r.BottomRight()),
     Line(r.BottomRight(), r.BottomLeft()), Line(r.BottomLeft(), r.TopLeft())]
  }

  /** Line.intersects_rect: the segment meets one of the four sides. */
  predicate IntersectsRect(l: Line, r: Rect)
  {
    exists i :: 0 <= i < 4 && IntersectsLine(l, SidesOf(r)[i])
  }

  // ---------------------------------------------------------------------------
  // An integer characterisation of the test

  /** n / d lies in [0, 1], stated without division. */
  predicate InUnit(n: int, d: int)
  {
    if d > 0 then 0 <= n <= d else d < 0 && d <= n <= 0
  }

  lemma {:induction false} QuotientInUnit(n: int, d: int)
    requires d != 0
    ensures (0.0 <= n as real / d as real <= 1.0) <==> InUnit(n, d)
  {
    var q := n as real / d as real;
    assert q * d as real == n as real;
    if d > 0 {
      ScaleByPositive(q, d as real);
    } else {
      ScaleByNegative(q, d as real);
    }
  }

  lemma ScaleByPositive(q: real, d: real)
    requires d > 0.0
    ensures (0.0 <= q <==> 0.0 <= q * d) && (q <= 1.0 <==> q * d <= d)
  {
  }

  lemma ScaleByNegative(q: real, d: real)
    requires d < 0.0
    ensures (0.0 <= q <==> q * d <= 0.0) && (q <= 1.0 <==> d <= q * d)
  {
  }

  /** The intersection test decided on integers: the exact-arithmetic reading of
      `uA >= 0 and uA <= 1 and uB >= 0 and uB <= 1`. */
  lemma IntersectsLineIff(a: Line, b: Line)
    ensures IntersectsLine(a, b) <==>
            InUnit(NumeratorA(a, b), Denominator(a, b)) && InUnit(NumeratorB(a, b), Denominator(a, b))
  {
    var den := Denominator(a, b);
    if den != 0 {
      QuotientInUnit(NumeratorA(a, b), den);
      QuotientInUnit(NumeratorB(a, b), den);
    }
  }

  /** Swapping the segments negates the denominator and exchanges the numerators. */
  lemma SwapTerms(a: Line, b: Line)
    ensures Denominator(b, a) == -Denominator(a, b)
    ensures NumeratorA(b, a) == -NumeratorB(a, b)
    ensures NumeratorB(b, a) == -NumeratorA(a, b)
  {
  }

  /** Under exact arithmetic the test does not depend on the order of the segments. */
  lemma IntersectsLineSymmetric(a: Line, b: Line)
    ensures IntersectsLine(a, b) == IntersectsLine(b, a)
  {
    IntersectsLineIff(a, b);
    IntersectsLineIff(b, a);
    SwapTerms(a, b);
  }

  // ---------------------------------------------------------------------------
  // What the test means geometrically

  /** The point start + u * (end - start) of a segment, in exact arithmetic. */
  function At(l: Line, u: real): (real, real)
  {
    (l.start.x as real + u * (l.end.x - l.start.x) as real,
     l.start.y as real + u * (l.end.y - l.start.y) as real)
  }

  /** The two segments have a point in common. */
  ghost predicate ShareAPoint(a: Line, b: Line)
  {
    exists t: real, u: real :: 0.0 <= t <= 1.0 && 0.0 <= u <= 1.0 && At(a, t) == At(b, u)
  }

  /** A reported intersection is a real crossing, and every crossing of non-parallel
      segments is reported: intersects_line is exactly "not parallel and sharing a point". */
  lemma {:induction false} IntersectsLineMeaning(a: Line, b: Line)
    ensures IntersectsLine(a, b) <==> Denominator(a, b) != 0 && ShareAPoint(a, b)
  {
    if IntersectsLine(a, b) {
      ReportedMeansShared(a, b);
    }
    if Denominator(a, b) != 0 && ShareAPoint(a, b) {
      var t: real, u: real :| 0.0 <= t <= 1.0 && 0.0 <= u <= 1.0 && At(a, t) == At(b, u);
      SharedPointParameters(a, b, t, u);
    }
  }

  /** The crossing point of a reported intersection lies on both segments. */
  lemma {:induction false} ReportedMeansShared(a: Line, b: Line)
    requires IntersectsLine(a, b)
    ensures ShareAPoint(a, b)
  {
    var d := Denominator(a, b) as real;
    var nA, nB := NumeratorA(a, b) as real, NumeratorB(a, b) as real;
    var t, u := nA / d, nB / d;
    var rx, ry := (a.start.x - b.start.x) as real, (a.start.y - b.start.y) as real;
    var dax, day := (a.end.x - a.start.x) as real, (a.end.y - a.start.y) as real;
    var dbx, dby := (b.end.x - b.start.x) as real, (b.end.y - b.start.y) as real;
    assert d == dby * dax - dbx * day;
    assert nA == dbx * ry - dby * rx;
    assert nB == dax * ry - day * rx;
    CrossingIdentity(rx, ry, dax, day, dbx, dby, d, nA, nB);
    assert t * d == nA && u * d == nB;
    DivideOut(rx, dax, dbx, d, nA, nB, t, u);
    DivideOut(ry, day, dby, d, nA, nB, t, u);
    SameEndpoint(a, b, t, u, rx, ry, dax, day, dbx, dby);
  }

  lemma SameEndpoint(a: Line, b: Line, t: real, u: real,
                     rx: real, ry: real, dax: real, day: real, dbx: real, dby: real)
    requires rx == (a.start.x - b.start.x) as real && ry == (a.start.y - b.start.y) as real
    requires dax == (a.end.x - a.start.x) as real && day == (a.end.y - a.start.y) as real
    requires dbx == (b.end.x - b.start.x) as real && dby == (b.end.y - b.start.y) as real
    requires rx + t * dax - u * dbx == 0.0 && ry + t * day - u * dby == 0.0
    ensures At(a, t) == At(b, u)
  {
    var ax, ay := a.start.x as real, a.start.y as real;
    var bx, by0 := b.start.x as real, b.start.y as real;
    assert rx == ax - bx && ry == ay - by0;
    assert ax + t * dax == bx + u * dbx;
    assert ay + t * day == by0 + u * dby;
    assert At(a, t).0 == ax + t * dax && At(a, t).1 == ay + t * day;
    assert At(b, u).0 == bx + u * dbx && At(b, u).1 == by0 + u * dby;
  }

  /** The two coordinate equations, each multiplied by the denominator, hold identically. */
  lemma CrossingIdentity(rx: real, ry: real, dax: real, day: real, dbx: real, dby: real,
                         den: real, nA: real, nB: real)
    requires den == dby * dax - dbx * day
    requires nA == dbx * ry - dby * rx
    requires nB == dax * ry - day * rx
    ensures rx * den + nA * dax - nB * dbx == 0.0 && ry * den + nA * day - nB * dby == 0.0
  {
  }

  lemma DivideOut(r: real, da: real, db: real, d: real, nA: real, nB: real, t: real, u: real)
    requires d != 0.0 && t * d == nA && u * d == nB && r * d + nA * da - nB * db == 0.0
    ensures r + t * da - u * db == 0.0
  {
    assert (r + t * da - u * db) * d == r * d + (t * d) * da - (u * d) * db;
    ZeroProduct(r + t * da - u * db, d);
  }

  /** A common point of non-parallel segments is found at parameters numA/den and numB/den,
      so it is reported. */
  lemma SharedPointParameters(a: Line, b: Line, t: real, u: real)
    requires Denominator(a, b) != 0
    requires 0.0 <= t <= 1.0 && 0.0 <= u <= 1.0 && At(a, t) == At(b, u)
    ensures IntersectsLine(a, b)
  {
    SharedPointParameterA(a, b, t, u);
    SharedPointParameterB(a, b, t, u);
  }

  lemma SharedPointParameterA(a: Line, b: Line, t: real, u: real)
    requires Denominator(a, b) != 0 && At(a, t) == At(b, u)
    ensures NumeratorA(a, b) as real / Denominator(a, b) as real == t
  {
    var rx, ry := (a.start.x - b.start.x) as real, (a.start.y - b.start.y) as real;
    var dax, day := (a.end.x - a.start.x) as real, (a.end.y - a.start.y) as real;
    var dbx, dby := (b.end.x - b.start.x) as real, (b.end.y - b.start.y) as real;
    assert rx + t * dax - u * dbx == 0.0;
    assert ry + t * day - u * dby == 0.0;
    EliminateU(rx, ry, dax, day, dbx, dby, t, u);
    assert Denominator(a, b) as real == dby * dax - dbx * day;
    assert NumeratorA(a, b) as real == dbx * ry - dby * rx;
    DivideBack(NumeratorA(a, b) as real, Denominator(a, b) as real, t);
  }

  lemma SharedPointParameterB(a: Line, b: Line, t: real, u: real)
    requires Denominator(a, b) != 0 && At(a, t) == At(b, u)
    ensures NumeratorB(a, b) as real / Denominator(a, b) as real == u
  {
    var rx, ry := (a.start.x - b.start.x) as real, (a.start.y - b.start.y) as real;
    var dax, day := (a.end.x - a.start.x) as real, (a.end.y - a.start.y) as real;
    var dbx, dby := (b.end.x - b.start.x) as real, (b.end.y - b.start.y) as real;
    assert rx + t * dax - u * dbx == 0.0;
    assert ry + t * day - u * dby == 0.0;
    EliminateT(rx, ry, dax, day, dbx, dby, t, u);
    assert Denominator(a, b) as real == dby * dax - dbx * day;
    assert NumeratorB(a, b) as real == dax * ry - day * rx;
    DivideBack(NumeratorB(a, b) as real, Denominator(a, b) as real, u);
  }

  lemma DivideBack(n: real, d: real, t: real)
    requires d != 0.0 && t * d == n
    ensures n / d == t
  {
  }

  lemma EliminateU(rx: real, ry: real, dax: real, day: real, dbx: real, dby: real, t: real, u: real)
    requires rx + t * dax - u * dbx == 0.0 && ry + t * day - u * dby == 0.0
    ensures t * (dby * dax - dbx * day) == dbx * ry - dby * rx
  {
    assert dby * (rx + t * dax - u * dbx) - dbx * (ry + t * day - u * dby) == 0.0;
  }

  lemma EliminateT(rx: real, ry: real, dax: real, day: real, dbx: real, dby: real, t: real, u: real)
    requires rx + t * dax - u * dbx == 0.0 && ry + t * day - u * dby == 0.0
    ensures u * (dby * dax - dbx * day) == dax * ry - day * rx
  {
    assert dax * (ry + t * day - u * dby) - day * (rx + t * dax - u * dbx) == 0.0;
  }

  lemma ZeroProduct(x: real, d: real)
    requires d != 0.0 && x * d == 0.0
    ensures x == 0.0
  {
  }

  /** Collinear overlapping segments share points but are never reported. */
  lemma CollinearOverlapNotReported()
    ensures ShareAPoint(Line(Point(0, 0), Point(2, 0)), Line(Point(1, 0), Point(3, 0)))
    ensures !IntersectsLine(Line(Point(0, 0), Point(2, 0)), Line(Point(1, 0), Point(3, 0)))
  {
    assert At(Line(Point(0, 0), Point(2, 0)), 1.0) == At(Line(Point(1, 0), Point(3, 0)), 0.5);
  }

  // ---------------------------------------------------------------------------
  // Segments and rectangles

  /** p lies in the open interior of r. */
  predicate StrictlyInside(r: Rect, p: Point)
  {
    r.x < p.x < r.x + r.w && r.y < p.y < r.y + r.h
  }

  lemma {:induction false} ScaledInUnit(k: int, n: int, d: int)
    requires k > 0
    ensures InUnit(k * n, k * d) == InUnit(n, d)
  {
    MulByPositive(k, n);
    MulByPositive(k, d);
    MulByPositive(k, n - d);
    assert k * n - k * d == k * (n - d);
  }

  lemma MulByPositive(k: int, m: int)
    requires k > 0
    ensures (m > 0 <==> k * m > 0) && (m < 0 <==> k * m < 0) && (m == 0 <==> k * m == 0)
  {
  }

  /** A segment lying strictly inside a rectangle crosses none of its sides, so
      intersects_rect does not report it. */
  lemma {:induction false} InsideSegmentNotReported(l: Line, r: Rect)
    requires StrictlyInside(r, l.start) && StrictlyInside(r, l.end)
    ensures !IntersectsRect(l, r)
  {
    var sides := SidesOf(r);
    var ax, ay, ex, ey := l.start.x, l.start.y, l.end.x, l.end.y;
    // top side: horizontal at r.y, running right
    assert Denominator(l, sides[0]) == r.w * (ay - ey);
    assert NumeratorA(l, sides[0]) == r.w * (ay - r.y);
    ScaledInUnit(r.w, ay - r.y, ay - ey);
    // right side: vertical at r.x + r.w, running down
    assert Denominator(l, sides[1]) == r.h * (ex - ax);
    assert NumeratorA(l, sides[1]) == r.h * (r.x + r.w - ax);
    ScaledInUnit(r.h, r.x + r.w - ax, ex - ax);
    // bottom side: horizontal at r.y + r.h, running left
    assert Denominator(l, sides[2]) == r.w * (ey - ay);
    assert NumeratorA(l, sides[2]) == r.w * (r.y + r.h - ay);
    ScaledInUnit(r.w, r.y + r.h - ay, ey - ay);
    // left side: vertical at r.x, running up
    assert Denominator(l, sides[3]) == r.h * (ax - ex);
    assert NumeratorA(l, sides[3]) == r.h * (ax - r.x);
    ScaledInUnit(r.h, ax - r.x, ax - ex);
    forall i | 0 <= i < 4
      ensures !IntersectsLine(l, sides[i])
    {
      IntersectsLineIff(l, sides[i]);
    }
  }

  // ---------------------------------------------------------------------------
  // Direction does not matter

  /** The same segment walked from its end to its start. */
  function Reversed(l: Line): (r: Line)
    ensures r.start == l.end && r.end == l.start
  {
    Line(l.end, l.start)
  }

  /** Reversing `a` negates the denominator, maps uA to 1 - uA and keeps uB. */
  lemma ReverseTerms(a: Line, b: Line)
    ensures Denominator(Reversed(a), b) == -Denominator(a, b)
    ensures NumeratorA(Reversed(a), b) == NumeratorA(a, b) - Denominator(a, b)
    ensures NumeratorB(Reversed(a), b) == -NumeratorB(a, b)
  {
  }

  /** The test does not depend on the direction of the tested segment, so a ray
      from A to B is blocked exactly when the ray from B to A is. */
  lemma IntersectsLineReversed(a: Line, b: Line)
    ensures IntersectsLine(Reversed(a), b) == IntersectsLine(a, b)
  {
    IntersectsLineIff(a, b);
    IntersectsLineIff(Reversed(a), b);
    ReverseTerms(a, b);
  }

  lemma IntersectsRectReversed(l: Line, r: Rect)
    ensures IntersectsRect(Reversed(l), r) == IntersectsRect(l, r)
  {
    forall i | 0 <= i < 4
      ensures IntersectsLine(Reversed(l), SidesOf(r)[i]) == IntersectsLine(l, SidesOf(r)[i])
    {
      IntersectsLineReversed(l, SidesOf(r)[i]);
    }
  }
}
