/**
  Specifications of the span fillers of `MonoGlyph`: the clipped horizontal
  span, the scanline triangle fill (with its vertex sort and edge
  interpolation), the rectangle fill as two triangles and the disc fill.
  `_interp` is modelled on exact rationals and `int(math.sqrt(n))` as the
  integer square root.
 */
module Filler {
  import opened Rasterizer

  // ---------------------------------------------------------------------
  // Arithmetic the fillers use
  // ---------------------------------------------------------------------

  /** `int(math.sqrt(n))`: the largest k with k * k <= n. */
  function ISqrt(n: nat): (k: nat)
    ensures k * k <= n < (k + 1) * (k + 1)
  {
    if n == 0 then 0
    else
      var h := ISqrt(n / 4);
      ISqrtDoubling(n, h);
      if (2 * h + 1) * (2 * h + 1) <= n then 2 * h + 1 else 2 * h
  }

  /** The root of n lies between twice the root of n / 4 and one more than that. */
  lemma ISqrtDoubling(n: nat, h: nat)
    requires h * h <= n / 4 < (h + 1) * (h + 1)
    ensures (2 * h) * (2 * h) <= n < (2 * h + 2) * (2 * h + 2)
  {
    var q := n / 4;
    assert 4 * q <= n < 4 * q + 4;
    assert (2 * h) * (2 * h) == 4 * (h * h);
    assert (2 * h + 2) * (2 * h + 2) == 4 * ((h + 1) * (h + 1));
  }

  /** Python's `int(v)` on a float: truncation toward zero. */
  function Trunc(v: real): (t: int)
    ensures v >= 0.0 ==> t as real <= v < t as real + 1.0
    ensures v <= 0.0 ==> t as real - 1.0 < v <= t as real
  {
    if v >= 0.0 then v.Floor else -((-v).Floor)
  }

  lemma TruncMonotone(u: real, v: real)
    requires u <= v
    ensures Trunc(u) <= Trunc(v)
  {
  }

  /**
    `_interp`: the x where the edge from (xStart, yStart) to (xEnd, yEnd)
    crosses row y, or xStart on a flat edge.
   */
  function Interp(y: int, yStart: int, yEnd: int, xStart: int, xEnd: int): real {
    if yStart == yEnd then xStart as real
    else xStart as real + ((xEnd - xStart) * (y - yStart)) as real / (yEnd - yStart) as real
  }

  lemma DivBounds(a: real, b: real, d: real)
    requires d > 0.0 && 0.0 <= a <= b * d
    ensures 0.0 <= a / d <= b
  {
    assert a / d * d == a;
  }

  /** Dividing by a negated denominator negates the quotient. */
  lemma DivNegate(a: int, d: int)
    requires d != 0
    ensures a as real / d as real == (-a) as real / (-d) as real
  {
  }

  /** For x >= 0 and 0 <= o <= d, the fraction x * o / d lies between 0 and x. */
  lemma ScaledBetweenNonNegative(x: int, o: int, d: int)
    requires x >= 0 && 0 <= o <= d && d > 0
    ensures 0.0 <= (x * o) as real / d as real <= x as real
  {
    MulMonotone(x, o, d);
    DivBounds((x * o) as real, x as real, d as real);
  }

  /** For 0 <= o <= d, the fraction x * o / d lies between 0 and x. */
  lemma ScaledBetweenPositive(x: int, o: int, d: int)
    requires 0 <= o <= d && d > 0
    ensures Min(0, x) as real <= (x * o) as real / d as real <= Max(0, x) as real
  {
    if x >= 0 {
      ScaledBetweenNonNegative(x, o, d);
    } else {
      ScaledBetweenNonNegative(-x, o, d);
      assert (-x) * o == -(x * o);
      assert (-(x * o)) as real / d as real == -((x * o) as real / d as real);
    }
  }

  /** For o between 0 and d (d of either sign), the fraction x * o / d lies between 0 and x. */
  lemma ScaledBetween(x: int, o: int, d: int)
    requires d != 0 && (0 <= o <= d || d <= o <= 0)
    ensures Min(0, x) as real <= (x * o) as real / d as real <= Max(0, x) as real
  {
    if d > 0 {
      ScaledBetweenPositive(x, o, d);
    } else {
      DivNegate(x * o, d);
      assert -(x * o) == x * (-o);
      ScaledBetweenPositive(x, -o, -d);
    }
  }

  /** Between its end rows, an edge crosses each row between its end columns. */
  lemma InterpBetween(y: int, yStart: int, yEnd: int, xStart: int, xEnd: int)
    requires Between(y, yStart, yEnd)
    ensures Between(Trunc(Interp(y, yStart, yEnd, xStart, xEnd)), xStart, xEnd)
  {
    if yStart != yEnd {
      ScaledBetween(xEnd - xStart, y - yStart, yEnd - yStart);
      var v := Interp(y, yStart, yEnd, xStart, xEnd);
      assert Min(xStart, xEnd) as real <= v <= Max(xStart, xEnd) as real;
      TruncMonotone(Min(xStart, xEnd) as real, v);
      TruncMonotone(v, Max(xStart, xEnd) as real);
    }
  }

  /** A flat interpolation, and one that reaches its end row, land exactly on a column. */
  lemma InterpExact(y: int, yStart: int, yEnd: int, xStart: int, xEnd: int)
    ensures xStart == xEnd ==> Trunc(Interp(y, yStart, yEnd, xStart, xEnd)) == xStart
    ensures y == yStart ==> Trunc(Interp(y, yStart, yEnd, xStart, xEnd)) == xStart
    ensures yStart == yEnd ==> Trunc(Interp(y, yStart, yEnd, xStart, xEnd)) == xStart
    ensures yStart != yEnd && y == yEnd ==> Trunc(Interp(y, yStart, yEnd, xStart, xEnd)) == xEnd
  {
    if yStart != yEnd && y == yEnd {
      var d := yEnd - yStart;
      assert ((xEnd - xStart) * d) as real / d as real == (xEnd - xStart) as real;
    }
  }

  // ---------------------------------------------------------------------
  // Horizontal span
  // ---------------------------------------------------------------------

  /**
    The cells `_draw_horizontal_line` offers the cell writer: row y, every
    column between the two ends in either order, clipped to [0, width).
   */
  ghost function SpanCells(xStart: int, xEnd: int, y: int, width: int): iset<Point> {
    iset p: Point | p.y == y && Between(p.x, xStart, xEnd) && 0 <= p.x < width
  }

  // ---------------------------------------------------------------------
  // Triangle fill
  // ---------------------------------------------------------------------

  /** Three vertices, in the order `fill_triangle` names them v0, v1, v2. */
  datatype Tri = Tri(v0: Point, v1: Point, v2: Point)

  /**
    The three compare-and-swaps of `fill_triangle` (v0/v1, v0/v2, v1/v2, each
    swapping when the first lies strictly lower): the result is the input's
    vertices, ordered by row.
   */
  function SortByY(t: Tri): (s: Tri)
    ensures s.v0.y <= s.v1.y <= s.v2.y
  {
    var t1 := if t.v0.y > t.v1.y then Tri(t.v1, t.v0, t.v2) else t;
    var t2 := if t1.v0.y > t1.v2.y then Tri(t1.v2, t1.v1, t1.v0) else t1;
    if t2.v1.y > t2.v2.y then Tri(t2.v0, t2.v2, t2.v1) else t2
  }

  /** Sorting only reorders the vertices. */
  lemma SortByYPermutes(t: Tri)
    ensures var s := SortByY(t); multiset{s.v0, s.v1, s.v2} == multiset{t.v0, t.v1, t.v2}
  {
  }

  /**
    The ends of the span `fill_triangle` draws on row y of a row-sorted
    triangle: one on the long edge v0-v2, the other on the short edge v0-v1
    for rows above v1 (the first loop) and on v1-v2 from v1's row on (the
    second loop).
   */
  function RowSpan(t: Tri, y: int): (int, int) {
    var sx := Trunc(Interp(y, t.v0.y, t.v2.y, t.v0.x, t.v2.x));
    var ex := if y < t.v1.y then Trunc(Interp(y, t.v0.y, t.v1.y, t.v0.x, t.v1.x))
              else Trunc(Interp(y, t.v1.y, t.v2.y, t.v1.x, t.v2.x));
    (sx, ex)
  }

  /** p is on a filled row of the sorted triangle t, within that row's span. */
  predicate InFilledTriangle(t: Tri, p: Point) {
    t.v0.y <= p.y <= t.v2.y && Between(p.x, RowSpan(t, p.y).0, RowSpan(t, p.y).1)
  }

  /** The cells `fill_triangle` offers the cell writer. */
  ghost function TriangleFillCells(v0: Point, v1: Point, v2: Point): iset<Point> {
    iset p | InFilledTriangle(SortByY(Tri(v0, v1, v2)), p)
  }

  /** The cells of the sorted triangle t on its rows above row y. */
  ghost function FilledRows(t: Tri, y: int): iset<Point> {
    iset p: Point | t.v0.y <= p.y < y && InFilledTriangle(t, p)
  }

  /**
    Within the columns [0, width), filling row y of the triangle adds
    exactly the span `RowSpan` gives for that row.
   */
  lemma FilledRowsStep(t: Tri, y: int, width: int, p: Point)
    requires t.v0.y <= y <= t.v2.y && 0 <= p.x < width
    ensures p in FilledRows(t, y + 1) <==>
      p in FilledRows(t, y) || p in SpanCells(RowSpan(t, y).0, RowSpan(t, y).1, y, width)
  {
  }

  /** Sorting the vertices leaves their bounding box as it was. */
  lemma SortKeepsBox(t: Tri, p: Point)
    ensures var s := SortByY(t); InBox3(s.v0, s.v1, s.v2, p) == InBox3(t.v0, t.v1, t.v2, p)
  {
  }

  /** Every filled cell of a sorted triangle lies in its vertices' bounding box. */
  lemma SortedFillInBox(t: Tri, p: Point)
    requires t.v0.y <= t.v1.y <= t.v2.y && InFilledTriangle(t, p)
    ensures InBox3(t.v0, t.v1, t.v2, p)
  {
    InterpBetween(p.y, t.v0.y, t.v2.y, t.v0.x, t.v2.x);
    if p.y < t.v1.y {
      InterpBetween(p.y, t.v0.y, t.v1.y, t.v0.x, t.v1.x);
    } else {
      InterpBetween(p.y, t.v1.y, t.v2.y, t.v1.x, t.v2.x);
    }
  }

  /** Every filled cell lies in the vertices' bounding box. */
  lemma TriangleFillInBox(v0: Point, v1: Point, v2: Point, p: Point)
    requires p in TriangleFillCells(v0, v1, v2)
    ensures InBox3(v0, v1, v2, p)
  {
    SortedFillInBox(SortByY(Tri(v0, v1, v2)), p);
    SortKeepsBox(Tri(v0, v1, v2), p);
  }

  /** A sorted triangle spanning more than one row covers its vertices. */
  lemma SortedTriangleCoversVertices(t: Tri)
    requires t.v0.y <= t.v1.y <= t.v2.y && t.v0.y < t.v2.y
    ensures InFilledTriangle(t, t.v0) && InFilledTriangle(t, t.v1) && InFilledTriangle(t, t.v2)
  {
    InterpExact(t.v0.y, t.v0.y, t.v2.y, t.v0.x, t.v2.x);
    InterpExact(t.v0.y, t.v0.y, t.v1.y, t.v0.x, t.v1.x);
    InterpExact(t.v0.y, t.v1.y, t.v2.y, t.v1.x, t.v2.x);
    InterpExact(t.v1.y, t.v1.y, t.v2.y, t.v1.x, t.v2.x);
    InterpExact(t.v2.y, t.v0.y, t.v2.y, t.v0.x, t.v2.x);
  }

  /**
    Unless all three vertices share one row, the fill covers every vertex.
    (On a single row the fill is the span between the first two vertices
    after sorting, which may leave the third uncovered.)
   */
  lemma TriangleFillCoversVertices(v0: Point, v1: Point, v2: Point)
    requires !(v0.y == v1.y == v2.y)
    ensures v0 in TriangleFillCells(v0, v1, v2)
    ensures v1 in TriangleFillCells(v0, v1, v2)
    ensures v2 in TriangleFillCells(v0, v1, v2)
  {
    var t := SortByY(Tri(v0, v1, v2));
    SortByYPermutes(Tri(v0, v1, v2));
    var m := multiset{t.v0, t.v1, t.v2};
    assert v0 in m && v1 in m && v2 in m;
    SortedTriangleCoversVertices(t);
  }

  // ---------------------------------------------------------------------
  // Rectangle fill
  // ---------------------------------------------------------------------

  /**
    The cells `fill_rect` offers the cell writer: the triangle
    (top-left, top-right, bottom-left) and the triangle (top-right,
    bottom-right, bottom-left).
   */
  ghost function RectFillCells(x: int, y: int, w: int, h: int): iset<Point> {
    var right, bottom := x + w - 1, y + h - 1;
    TriangleFillCells(Point(x, y), Point(right, y), Point(x, bottom)) +
    TriangleFillCells(Point(right, y), Point(right, bottom), Point(x, bottom))
  }

  /** A cell of the rectangle is a cell of one of its two triangles. */
  lemma RectFillHalves(x: int, y: int, w: int, h: int, p: Point)
    ensures p in RectFillCells(x, y, w, h) <==>
      p in TriangleFillCells(Point(x, y), Point(x + w - 1, y), Point(x, y + h - 1)) ||
      p in TriangleFillCells(Point(x + w - 1, y), Point(x + w - 1, y + h - 1), Point(x, y + h - 1))
  {
  }

  /** p lies in the box of columns x..x+w-1 and rows y..y+h-1. */
  predicate InRect(x: int, y: int, w: int, h: int, p: Point) {
    x <= p.x <= x + w - 1 && y <= p.y <= y + h - 1
  }

  /** On row yy of the box, the upper triangle spans from the left column to the diagonal's crossing. */
  lemma UpperRowSpan(x: int, y: int, right: int, bottom: int, yy: int)
    requires y <= yy <= bottom
    ensures RowSpan(Tri(Point(x, y), Point(right, y), Point(x, bottom)), yy) ==
      (x, Trunc(Interp(yy, y, bottom, right, x)))
  {
    InterpExact(yy, y, bottom, x, x);
  }

  /**
    On row yy of the box, the lower triangle spans from the diagonal's
    crossing to the right column, and on the bottom row from the left
    column (or the right one, for a box one row high).
   */
  lemma LowerRowSpan(x: int, y: int, right: int, bottom: int, yy: int)
    requires y <= yy <= bottom
    ensures var span := RowSpan(Tri(Point(right, y), Point(right, bottom), Point(x, bottom)), yy);
      span.1 == right &&
      (yy < bottom ==> span.0 == Trunc(Interp(yy, y, bottom, right, x))) &&
      (yy == bottom ==> span.0 == x || span.0 == right)
  {
    InterpExact(yy, y, bottom, right, right);
    InterpExact(yy, bottom, bottom, right, x);
    InterpExact(yy, y, bottom, right, x);
  }

  /**
    The two triangles of a rectangle of at least one cell fill exactly its
    box: on every row the diagonal's crossing ends the first triangle's span
    and starts the second's, so the spans meet without a gap.
   */
  lemma RectFillIsRect(x: int, y: int, w: int, h: int, p: Point)
    requires w >= 1 && h >= 1
    ensures p in RectFillCells(x, y, w, h) <==> InRect(x, y, w, h, p)
  {
    var right, bottom := x + w - 1, y + h - 1;
    var upper := Tri(Point(x, y), Point(right, y), Point(x, bottom));
    var lower := Tri(Point(right, y), Point(right, bottom), Point(x, bottom));
    assert SortByY(upper) == upper && SortByY(lower) == lower;
    if y <= p.y <= bottom {
      InterpBetween(p.y, y, bottom, right, x);
      UpperRowSpan(x, y, right, bottom, p.y);
      LowerRowSpan(x, y, right, bottom, p.y);
    }
  }

  // ---------------------------------------------------------------------
  // Disc fill
  // ---------------------------------------------------------------------

  lemma SquareBelow(a: int, b: int)
    requires Abs(a) <= b
    ensures a * a <= b * b
  {
    MulMonotone(Abs(a), Abs(a), b);
    MulMonotone(b, Abs(a), b);
    assert a * a == Abs(a) * Abs(a);
  }

  /** `int(math.sqrt(radius**2 - dy**2))`: the half-width of the disc's span on row offset dy. */
  function HalfWidth(radius: int, dy: int): nat
    requires Abs(dy) <= radius
  {
    SquareBelow(dy, radius);
    ISqrt(radius * radius - dy * dy)
  }

  /** The cells `fill_circle` offers the cell writer: for dy from -radius to radius, the span cx ± HalfWidth on row cy + dy. */
  ghost function DiscCells(cx: int, cy: int, radius: int): iset<Point> {
    iset p: Point | Abs(p.y - cy) <= radius && Between(p.x, cx - HalfWidth(radius, p.y - cy), cx + HalfWidth(radius, p.y - cy))
  }

  /** The disc's cells on the row offsets below dy. */
  ghost function DiscRows(cx: int, cy: int, radius: int, dy: int): iset<Point> {
    iset p: Point | p.y - cy < dy && p in DiscCells(cx, cy, radius)
  }

  /**
    Within the columns [0, width), filling row offset dy of the disc adds
    exactly the span of half-width `HalfWidth(radius, dy)` on that row.
   */
  lemma DiscRowsStep(cx: int, cy: int, radius: int, dy: int, width: int, p: Point)
    requires Abs(dy) <= radius && 0 <= p.x < width
    ensures p in DiscRows(cx, cy, radius, dy + 1) <==>
      p in DiscRows(cx, cy, radius, dy) ||
      p in SpanCells(cx - HalfWidth(radius, dy), cx + HalfWidth(radius, dy), cy + dy, width)
  {
  }

  /** Past the last row offset, the rows filled are the whole disc. */
  lemma DiscRowsAll(cx: int, cy: int, radius: int, dy: int, p: Point)
    requires dy > radius
    ensures p in DiscRows(cx, cy, radius, dy) <==> p in DiscCells(cx, cy, radius)
  {
  }

  /** |a| <= k exactly when a * a <= n, for k the integer square root of n. */
  lemma WithinRoot(a: int, k: nat, n: int)
    requires k * k <= n < (k + 1) * (k + 1)
    ensures Abs(a) <= k <==> a * a <= n
  {
    if Abs(a) <= k {
      SquareBelow(a, k);
    } else {
      SquareBelow(k + 1, Abs(a));
      assert a * a == Abs(a) * Abs(a);
    }
  }

  /**
    `fill_circle` covers exactly the cells within Euclidean distance radius of
    the centre; a negative radius covers nothing.
   */
  lemma DiscIsEuclidean(cx: int, cy: int, radius: int, p: Point)
    ensures p in DiscCells(cx, cy, radius) <==>
      radius >= 0 && (p.x - cx) * (p.x - cx) + (p.y - cy) * (p.y - cy) <= radius * radius
  {
    var dx, dy := p.x - cx, p.y - cy;
    if Abs(dy) <= radius {
      SquareBelow(dy, radius);
      var k := HalfWidth(radius, dy);
      WithinRoot(dx, k, radius * radius - dy * dy);
    } else if radius >= 0 {
      SquareBelow(radius + 1, Abs(dy));
      assert dy * dy == Abs(dy) * Abs(dy);
      assert (radius + 1) * (radius + 1) == radius * radius + 2 * radius + 1;
      assert dx * dx >= 0;
    }
  }

  /** A disc of radius 0 fills its centre cell alone. */
  lemma DiscRadiusZero(cx: int, cy: int, p: Point)
    ensures p in DiscCells(cx, cy, 0) <==> p == Point(cx, cy)
  {
    DiscIsEuclidean(cx, cy, 0, p);
    assert (p.x - cx) * (p.x - cx) >= 0 && (p.y - cy) * (p.y - cy) >= 0;
    if (p.x - cx) * (p.x - cx) + (p.y - cy) * (p.y - cy) <= 0 {
      assert (p.x - cx) * (p.x - cx) == 0 && (p.y - cy) * (p.y - cy) == 0;
    }
  }
}
