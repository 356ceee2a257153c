/**
  Specifications of the outline rasterisers of `MonoGlyph`: the Bresenham
  line of `draw_line`, the lines that make up `draw_rect` and `draw_triangle`,
  and the midpoint circle of `draw_circle`. Each is the sequence of cells the
  algorithm hands to the cell writer, in order.
 */
module Rasterizer {

  /** A cell coordinate: column x, row y. */
  datatype Point = Point(x: int, y: int)

  function Abs(n: int): nat {
    if n < 0 then -n else n
  }

  function Min(a: int, b: int): int {
    if a < b then a else b
  }

  function Max(a: int, b: int): int {
    if a < b then b else a
  }

  /** v lies between a and b, whichever is smaller. */
  predicate Between(v: int, a: int, b: int) {
    Min(a, b) <= v <= Max(a, b)
  }

  // ---------------------------------------------------------------------
  // Bresenham line
  // ---------------------------------------------------------------------

  /**
    The coordinate reached after k unit steps from a toward b, where a step
    adds 1 when a < b and -1 otherwise (`sx`, `sy`).
   */
  function Advance(a: int, b: int, k: int): int {
    if a < b then a + k else a - k
  }

  /**
    The error term `err` after ax steps in x and ay steps in y, for
    dx = |x1 - x0| and dy = |y1 - y0|: it starts at dx - dy, each x step adds
    -dy and each y step adds dx.
   */
  function LineError(dx: int, dy: int, ax: int, ay: int): int {
    dx - dy + dx * ay - dy * ax
  }

  /** An x step subtracts dy from the error term and a y step adds dx. */
  lemma LineErrorStep(dx: int, dy: int, ax: int, ay: int)
    ensures LineError(dx, dy, ax + 1, ay) == LineError(dx, dy, ax, ay) - dy
    ensures LineError(dx, dy, ax, ay + 1) == LineError(dx, dy, ax, ay) + dx
    ensures LineError(dx, dy, ax + 1, ay + 1) == LineError(dx, dy, ax, ay) + dx - dy
  {
    assert dx * (ay + 1) == dx * ay + dx;
    assert dy * (ax + 1) == dy * ax + dy;
  }

  lemma MulMonotone(a: int, b: int, c: int)
    requires 0 <= a && b <= c
    ensures a * b <= a * c
  {
    assert a * c - a * b == a * (c - b);
  }

  /**
    The step counts after one more step from (ax, ay): x steps when
    2 * err >= -dy, y steps when 2 * err <= dx.
   */
  function NextAx(dx: int, dy: int, ax: int, ay: int): int {
    if 2 * LineError(dx, dy, ax, ay) >= -dy then ax + 1 else ax
  }

  function NextAy(dx: int, dy: int, ax: int, ay: int): int {
    if 2 * LineError(dx, dy, ax, ay) <= dx then ay + 1 else ay
  }

  /** Away from the end point, neither coordinate steps past its end. */
  lemma StepStaysInBox(dx: nat, dy: nat, ax: nat, ay: nat)
    requires ax <= dx && ay <= dy && !(ax == dx && ay == dy)
    ensures ax == dx ==> 2 * LineError(dx, dy, ax, ay) < -(dy as int)
    ensures ay == dy ==> 2 * LineError(dx, dy, ax, ay) > dx
  {
    if ax == dx {
      MulMonotone(dx, ay, dy - 1);
      assert dx * (dy - 1) == dx * dy - dx;
    }
    if ay == dy {
      MulMonotone(dy, ax, dx - 1);
      assert dy * (dx - 1) == dy * dx - dy;
    }
  }

  /**
    The cells `draw_line` plots from the state reached after ax steps in x
    and ay steps in y: the current cell, then, unless it is the end point,
    the cells after one more step.
   */
  function LineFrom(x0: int, y0: int, x1: int, y1: int, ax: nat, ay: nat): (path: seq<Point>)
    requires ax <= Abs(x1 - x0) && ay <= Abs(y1 - y0)
    ensures |path| >= 1
    decreases Abs(x1 - x0) - ax + Abs(y1 - y0) - ay
  {
    var dx: int, dy: int := Abs(x1 - x0), Abs(y1 - y0);
    var p := Point(Advance(x0, x1, ax), Advance(y0, y1, ay));
    if ax == dx && ay == dy then [p]
    else
      StepStaysInBox(dx, dy, ax, ay);
      [p] + LineFrom(x0, y0, x1, y1, NextAx(dx, dy, ax, ay), NextAy(dx, dy, ax, ay))
  }

  /** The cells `draw_line` plots, from (x0, y0) to (x1, y1). */
  function LinePath(x0: int, y0: int, x1: int, y1: int): seq<Point> {
    LineFrom(x0, y0, x1, y1, 0, 0)
  }

  /**
    One pass of `draw_line`'s loop away from the end point: with
    e2 = 2 * err, x steps by sx when e2 >= -dy and y steps by sy when
    e2 <= dx, err changes accordingly, the step counts stay in range and at
    least one grows, and the cells still to plot are the current one
    followed by those from the next state.
   */
  lemma LineFromStep(x0: int, y0: int, x1: int, y1: int, ax: nat, ay: nat)
    requires ax <= Abs(x1 - x0) && ay <= Abs(y1 - y0)
    requires !(ax == Abs(x1 - x0) && ay == Abs(y1 - y0))
    ensures var dx: int, dy: int := Abs(x1 - x0), Abs(y1 - y0);
      var e2 := 2 * LineError(dx, dy, ax, ay);
      var nax, nay := NextAx(dx, dy, ax, ay), NextAy(dx, dy, ax, ay);
      nax <= dx && nay <= dy && nax + nay > ax + ay &&
      Advance(x0, x1, nax) == Advance(x0, x1, ax) + (if e2 >= -dy then (if x0 < x1 then 1 else -1) else 0) &&
      Advance(y0, y1, nay) == Advance(y0, y1, ay) + (if e2 <= dx then (if y0 < y1 then 1 else -1) else 0) &&
      LineError(dx, dy, nax, nay) ==
        LineError(dx, dy, ax, ay) + (if e2 >= -dy then -dy else 0) + (if e2 <= dx then dx else 0) &&
      LineFrom(x0, y0, x1, y1, ax, ay) ==
        [Point(Advance(x0, x1, ax), Advance(y0, y1, ay))] + LineFrom(x0, y0, x1, y1, nax, nay)
  {
    var dx: int, dy: int := Abs(x1 - x0), Abs(y1 - y0);
    StepStaysInBox(dx, dy, ax, ay);
    LineErrorStep(dx, dy, ax, ay);
  }

  /**
    The state of `draw_line`'s loop after ax steps in x and ay steps in y,
    with the cells done plotted so far: the current cell is (x, y), the
    error term is err, and the cells still to plot complete the line.
   */
  predicate LineLoop(x0: int, y0: int, x1: int, y1: int, done: seq<Point>, ax: nat, ay: nat, x: int, y: int, err: int) {
    ax <= Abs(x1 - x0) && ay <= Abs(y1 - y0) &&
    x == Advance(x0, x1, ax) && y == Advance(y0, y1, ay) &&
    err == LineError(Abs(x1 - x0), Abs(y1 - y0), ax, ay) &&
    LinePath(x0, y0, x1, y1) == done + LineFrom(x0, y0, x1, y1, ax, ay)
  }

  /** The loop starts at the start point with nothing plotted. */
  lemma LineLoopStart(x0: int, y0: int, x1: int, y1: int)
    ensures LineLoop(x0, y0, x1, y1, [], 0, 0, x0, y0, Abs(x1 - x0) - Abs(y1 - y0))
  {
  }

  /**
    One pass of the loop away from the end point: with e2 = 2 * err, x steps
    by sx and err gains -dy when e2 >= -dy, then y steps by sy and err
    gains dx when e2 <= dx. Afterwards the cell (x, y) is done, and the
    step counts (nax, nay) of the new state have grown.
   */
  lemma LineLoopStep(x0: int, y0: int, x1: int, y1: int, done: seq<Point>, ax: nat, ay: nat,
                     x: int, y: int, err: int, x': int, y': int, err': int)
    returns (nax: nat, nay: nat)
    requires LineLoop(x0, y0, x1, y1, done, ax, ay, x, y, err)
    requires !(x == x1 && y == y1)
    requires var dx: int, dy: int := Abs(x1 - x0), Abs(y1 - y0);
      x' == (if 2 * err >= -dy then x + (if x0 < x1 then 1 else -1) else x) &&
      y' == (if 2 * err <= dx then y + (if y0 < y1 then 1 else -1) else y) &&
      err' == err + (if 2 * err >= -dy then -dy else 0) + (if 2 * err <= dx then dx else 0)
    ensures ax + ay < nax + nay <= Abs(x1 - x0) + Abs(y1 - y0)
    ensures LineLoop(x0, y0, x1, y1, done + [Point(x, y)], nax, nay, x', y', err')
  {
    var dx: int, dy: int := Abs(x1 - x0), Abs(y1 - y0);
    var here := Point(x, y);
    LineFromStep(x0, y0, x1, y1, ax, ay);
    nax, nay := NextAx(dx, dy, ax, ay), NextAy(dx, dy, ax, ay);
    var tail := LineFrom(x0, y0, x1, y1, nax, nay);
    assert done + ([here] + tail) == (done + [here]) + tail;
  }

  /** At the end point, the end point is the last cell to plot. */
  lemma LineLoopEnd(x0: int, y0: int, x1: int, y1: int, done: seq<Point>, ax: nat, ay: nat)
    requires LineLoop(x0, y0, x1, y1, done, ax, ay, x1, y1, LineError(Abs(x1 - x0), Abs(y1 - y0), ax, ay))
    ensures LinePath(x0, y0, x1, y1) == done + [Point(x1, y1)]
  {
  }

  /** From any state, the cells still to plot end at the end point. */
  lemma {:induction false} LineFromLast(x0: int, y0: int, x1: int, y1: int, ax: nat, ay: nat)
    requires ax <= Abs(x1 - x0) && ay <= Abs(y1 - y0)
    ensures var path := LineFrom(x0, y0, x1, y1, ax, ay); path[|path| - 1] == Point(x1, y1)
    decreases Abs(x1 - x0) - ax + Abs(y1 - y0) - ay
  {
    var dx: int, dy: int := Abs(x1 - x0), Abs(y1 - y0);
    if !(ax == dx && ay == dy) {
      StepStaysInBox(dx, dy, ax, ay);
      LineFromLast(x0, y0, x1, y1, NextAx(dx, dy, ax, ay), NextAy(dx, dy, ax, ay));
    }
  }

  /** The line starts at its start point and ends at its end point. */
  lemma LineEndpoints(x0: int, y0: int, x1: int, y1: int)
    ensures |LinePath(x0, y0, x1, y1)| >= 1
    ensures LinePath(x0, y0, x1, y1)[0] == Point(x0, y0)
    ensures LinePath(x0, y0, x1, y1)[|LinePath(x0, y0, x1, y1)| - 1] == Point(x1, y1)
  {
    LineFromLast(x0, y0, x1, y1, 0, 0);
  }

  /** A line whose endpoints coincide plots that one cell. */
  lemma LineDegenerate(x: int, y: int)
    ensures LinePath(x, y, x, y) == [Point(x, y)]
  {
  }

  /** One step of the path: by at most one cell along each axis, toward the end, never standing still. */
  predicate UnitStepToward(p: Point, q: Point, x1: int, y1: int) {
    var stepX, stepY := q.x - p.x, q.y - p.y;
    (stepX == 0 || stepX == (if p.x < x1 then 1 else -1)) &&
    (stepY == 0 || stepY == (if p.y < y1 then 1 else -1)) &&
    (stepX != 0 || stepY != 0)
  }

  lemma {:induction false} LineFromSteps(x0: int, y0: int, x1: int, y1: int, ax: nat, ay: nat)
    requires ax <= Abs(x1 - x0) && ay <= Abs(y1 - y0)
    ensures var path := LineFrom(x0, y0, x1, y1, ax, ay);
      forall i :: 0 <= i < |path| - 1 ==> UnitStepToward(path[i], path[i + 1], x1, y1)
    ensures forall p :: p in LineFrom(x0, y0, x1, y1, ax, ay) ==> Between(p.x, x0, x1) && Between(p.y, y0, y1)
    decreases Abs(x1 - x0) - ax + Abs(y1 - y0) - ay
  {
    var dx: int, dy: int := Abs(x1 - x0), Abs(y1 - y0);
    if !(ax == dx && ay == dy) {
      StepStaysInBox(dx, dy, ax, ay);
      var ax', ay' := NextAx(dx, dy, ax, ay), NextAy(dx, dy, ax, ay);
      LineFromSteps(x0, y0, x1, y1, ax', ay');
      var path := LineFrom(x0, y0, x1, y1, ax, ay);
      assert path[1..] == LineFrom(x0, y0, x1, y1, ax', ay');
      forall i | 0 <= i < |path| - 1
        ensures UnitStepToward(path[i], path[i + 1], x1, y1)
      {
        if i > 0 {
          assert path[i] == path[1..][i - 1];
        }
      }
    }
  }

  /**
    Every step of a line moves x and y by at most one cell toward the end
    point, and at least one of them moves; every plotted cell lies in the
    endpoints' bounding box.
   */
  lemma LineStepsAndBox(x0: int, y0: int, x1: int, y1: int)
    ensures var path := LinePath(x0, y0, x1, y1);
      forall i :: 0 <= i < |path| - 1 ==> UnitStepToward(path[i], path[i + 1], x1, y1)
    ensures forall p :: p in LinePath(x0, y0, x1, y1) ==> Between(p.x, x0, x1) && Between(p.y, y0, y1)
  {
    assert LinePath(x0, y0, x1, y1) == LineFrom(x0, y0, x1, y1, 0, 0);
    LineFromSteps(x0, y0, x1, y1, 0, 0);
  }

  /**
    Twice the signed distance (scaled by the line's length) of the state
    after ax, ay steps from the ideal segment stays within the major extent:
    the invariant that keeps Bresenham's path on the nearest cells.
   */
  predicate NearIdeal(dx: int, dy: int, ax: int, ay: int) {
    -Max(dx, dy) <= 2 * (dx * ay - dy * ax) <= Max(dx, dy)
  }

  /** One step keeps NearIdeal and always advances along the major axis. */
  lemma NearIdealStep(dx: nat, dy: nat, ax: nat, ay: nat)
    requires NearIdeal(dx, dy, ax, ay)
    ensures NearIdeal(dx, dy, NextAx(dx, dy, ax, ay), NextAy(dx, dy, ax, ay))
    ensures dy <= dx ==> NextAx(dx, dy, ax, ay) == ax + 1
    ensures dx <= dy ==> NextAy(dx, dy, ax, ay) == ay + 1
  {
    var ax', ay' := NextAx(dx, dy, ax, ay), NextAy(dx, dy, ax, ay);
    var f := dx * ay - dy * ax;
    assert LineError(dx, dy, ax, ay) == dx - dy + f;
    assert dx * ay' == dx * ay + (if ay' == ay then 0 else dx);
    assert dy * ax' == dy * ax + (if ax' == ax then 0 else dy);
  }

  lemma {:induction false} LineFromLength(x0: int, y0: int, x1: int, y1: int, ax: nat, ay: nat)
    requires ax <= Abs(x1 - x0) && ay <= Abs(y1 - y0)
    requires NearIdeal(Abs(x1 - x0), Abs(y1 - y0), ax, ay)
    ensures var dx, dy := Abs(x1 - x0), Abs(y1 - y0);
      |LineFrom(x0, y0, x1, y1, ax, ay)| == (if dy <= dx then dx - ax else dy - ay) + 1
    ensures forall p :: p in LineFrom(x0, y0, x1, y1, ax, ay) ==> NearSegment(x0, y0, x1, y1, p)
    decreases Abs(x1 - x0) - ax + Abs(y1 - y0) - ay
  {
    var dx: int, dy: int := Abs(x1 - x0), Abs(y1 - y0);
    CrossProductOfSteps(x0, y0, x1, y1, ax, ay);
    if !(ax == dx && ay == dy) {
      StepStaysInBox(dx, dy, ax, ay);
      NearIdealStep(dx, dy, ax, ay);
      var ax', ay' := NextAx(dx, dy, ax, ay), NextAy(dx, dy, ax, ay);
      assert LineFrom(x0, y0, x1, y1, ax, ay) ==
        [Point(Advance(x0, x1, ax), Advance(y0, y1, ay))] + LineFrom(x0, y0, x1, y1, ax', ay');
      LineFromLength(x0, y0, x1, y1, ax', ay');
    }
  }

  /**
    p lies within half a cell, along the minor axis and at p's major-axis
    coordinate, of the ideal segment: twice the cross product of p's offset
    with the segment is at most its major extent in size.
   */
  predicate NearSegment(x0: int, y0: int, x1: int, y1: int, p: Point) {
    var m := Max(Abs(x1 - x0), Abs(y1 - y0));
    -m <= 2 * ((p.y - y0) * (x1 - x0) - (p.x - x0) * (y1 - y0)) <= m
  }

  /** The cross product of a state's offset with the segment is ± the Bresenham deviation. */
  lemma CrossProductOfSteps(x0: int, y0: int, x1: int, y1: int, ax: int, ay: int)
    requires NearIdeal(Abs(x1 - x0), Abs(y1 - y0), ax, ay)
    ensures NearSegment(x0, y0, x1, y1, Point(Advance(x0, x1, ax), Advance(y0, y1, ay)))
  {
    var dx, dy := Abs(x1 - x0), Abs(y1 - y0);
    var sx, sy := if x0 < x1 then 1 else -1, if y0 < y1 then 1 else -1;
    assert x1 - x0 == sx * dx && y1 - y0 == sy * dy;
    assert Advance(x0, x1, ax) - x0 == sx * ax && Advance(y0, y1, ay) - y0 == sy * ay;
    assert (sy * ay) * (sx * dx) - (sx * ax) * (sy * dy) == (sx * sy) * (dx * ay - dy * ax);
    assert sx * sy == 1 || sx * sy == -1;
  }

  /**
    The canonical Bresenham guarantees: a line plots exactly
    max(|x1 - x0|, |y1 - y0|) + 1 cells, one per step along its major axis,
    and every one of them lies within half a cell of the ideal segment, along
    the minor axis at the cell's major-axis coordinate, measured by the cross
    product with the segment.
   */
  lemma LineIsCanonical(x0: int, y0: int, x1: int, y1: int)
    ensures |LinePath(x0, y0, x1, y1)| == Max(Abs(x1 - x0), Abs(y1 - y0)) + 1
    ensures forall p :: p in LinePath(x0, y0, x1, y1) ==> NearSegment(x0, y0, x1, y1, p)
  {
    LineFromLength(x0, y0, x1, y1, 0, 0);
  }

  /** From step ax on, a horizontal line plots every column between its current x and x1. */
  lemma {:induction false} HorizontalFrom(x0: int, x1: int, y: int, ax: nat)
    requires ax <= Abs(x1 - x0)
    ensures forall p :: p in LineFrom(x0, y, x1, y, ax, 0) <==> p.y == y && Between(p.x, Advance(x0, x1, ax), x1)
    decreases Abs(x1 - x0) - ax
  {
    var dx: int := Abs(x1 - x0);
    if ax < dx {
      assert NextAx(dx, 0, ax, 0) == ax + 1 && NextAy(dx, 0, ax, 0) == 0;
      assert LineFrom(x0, y, x1, y, ax, 0) ==
        [Point(Advance(x0, x1, ax), y)] + LineFrom(x0, y, x1, y, ax + 1, 0);
      HorizontalFrom(x0, x1, y, ax + 1);
    }
  }

  /** From step ay on, a vertical line plots every row between its current y and y1. */
  lemma {:induction false} VerticalFrom(x: int, y0: int, y1: int, ay: nat)
    requires ay <= Abs(y1 - y0)
    ensures forall p :: p in LineFrom(x, y0, x, y1, 0, ay) <==> p.x == x && Between(p.y, Advance(y0, y1, ay), y1)
    decreases Abs(y1 - y0) - ay
  {
    var dy: int := Abs(y1 - y0);
    if ay < dy {
      assert NextAx(0, dy, 0, ay) == 0 && NextAy(0, dy, 0, ay) == ay + 1;
      assert LineFrom(x, y0, x, y1, 0, ay) ==
        [Point(x, Advance(y0, y1, ay))] + LineFrom(x, y0, x, y1, 0, ay + 1);
      VerticalFrom(x, y0, y1, ay + 1);
    }
  }

  /** A horizontal or vertical line plots exactly the cells of the segment. */
  lemma AxisAlignedLine(x0: int, y0: int, x1: int, y1: int)
    requires x0 == x1 || y0 == y1
    ensures forall p :: p in LinePath(x0, y0, x1, y1) <==> Between(p.x, x0, x1) && Between(p.y, y0, y1)
  {
    if y0 == y1 {
      HorizontalFrom(x0, x1, y0, 0);
    } else {
      VerticalFrom(x0, y0, y1, 0);
    }
  }

  // ---------------------------------------------------------------------
  // Rectangle and triangle outlines
  // ---------------------------------------------------------------------

  /** The cells of a line, as a set. */
  ghost function LineCells(x0: int, y0: int, x1: int, y1: int): iset<Point> {
    iset p | p in LinePath(x0, y0, x1, y1)
  }

  /** The four lines `draw_rect` draws: top, bottom, left, right. */
  ghost function RectOutlineCells(x: int, y: int, w: int, h: int): iset<Point> {
    var right, bottom := x + w - 1, y + h - 1;
    LineCells(x, y, right, y) + LineCells(x, bottom, right, bottom) +
    LineCells(x, y, x, bottom) + LineCells(right, y, right, bottom)
  }

  /** p is on the border of the box spanned by columns x..x+w-1 and rows y..y+h-1. */
  predicate OnBorder(x: int, y: int, w: int, h: int, p: Point) {
    var right, bottom := x + w - 1, y + h - 1;
    ((p.y == y || p.y == bottom) && Between(p.x, x, right)) ||
    ((p.x == x || p.x == right) && Between(p.y, y, bottom))
  }

  /** `draw_rect` outlines exactly the border of its box, and nothing inside or outside it. */
  lemma RectOutlineIsBorder(x: int, y: int, w: int, h: int)
    ensures forall p :: p in RectOutlineCells(x, y, w, h) <==> OnBorder(x, y, w, h, p)
  {
    var right, bottom := x + w - 1, y + h - 1;
    AxisAlignedLine(x, y, right, y);
    AxisAlignedLine(x, bottom, right, bottom);
    AxisAlignedLine(x, y, x, bottom);
    AxisAlignedLine(right, y, right, bottom);
  }

  /** The three lines `draw_triangle` draws: v0 to v1, v1 to v2, v2 to v0. */
  ghost function TriangleOutlineCells(v0: Point, v1: Point, v2: Point): iset<Point> {
    LineCells(v0.x, v0.y, v1.x, v1.y) + LineCells(v1.x, v1.y, v2.x, v2.y) + LineCells(v2.x, v2.y, v0.x, v0.y)
  }

  /** p lies in the bounding box of three vertices. */
  predicate InBox3(v0: Point, v1: Point, v2: Point, p: Point) {
    Min(v0.x, Min(v1.x, v2.x)) <= p.x <= Max(v0.x, Max(v1.x, v2.x)) &&
    Min(v0.y, Min(v1.y, v2.y)) <= p.y <= Max(v0.y, Max(v1.y, v2.y))
  }

  /** The triangle outline passes through all three vertices and stays in their bounding box. */
  lemma TriangleOutlineBounds(v0: Point, v1: Point, v2: Point)
    ensures v0 in TriangleOutlineCells(v0, v1, v2)
    ensures v1 in TriangleOutlineCells(v0, v1, v2)
    ensures v2 in TriangleOutlineCells(v0, v1, v2)
    ensures forall p :: p in TriangleOutlineCells(v0, v1, v2) ==> InBox3(v0, v1, v2, p)
  {
    LineEndpoints(v0.x, v0.y, v1.x, v1.y);
    LineEndpoints(v1.x, v1.y, v2.x, v2.y);
    LineEndpoints(v2.x, v2.y, v0.x, v0.y);
    LineStepsAndBox(v0.x, v0.y, v1.x, v1.y);
    LineStepsAndBox(v1.x, v1.y, v2.x, v2.y);
    LineStepsAndBox(v2.x, v2.y, v0.x, v0.y);
  }

  // ---------------------------------------------------------------------
  // Midpoint circle
  // ---------------------------------------------------------------------

  /** The loop state of `draw_circle`: the octant offsets x, y and the decision variable d. */
  datatype CircleState = CircleState(x: int, y: int, d: int)

  /** x = 0, y = radius, d = 3 - 2 * radius. */
  function CircleStart(radius: int): CircleState {
    CircleState(0, radius, 3 - 2 * radius)
  }

  /**
    One iteration of the loop: x grows by one; when d > 0, y shrinks by one
    and d grows by 4 * (x - y) + 10, otherwise d grows by 4 * x + 6, both
    with the updated x and y.
   */
  function CircleStep(s: CircleState): (n: CircleState)
    ensures n.x == s.x + 1 && s.y - 1 <= n.y <= s.y
  {
    var x := s.x + 1;
    if s.d > 0 then CircleState(x, s.y - 1, s.d + 4 * (x - (s.y - 1)) + 10)
    else CircleState(x, s.y, s.d + 4 * x + 6)
  }

  /** The states the loop `while y >= x` passes through after s, each plotted once. */
  function CircleRun(s: CircleState): seq<CircleState>
    decreases s.y - s.x + 2
  {
    if s.y < s.x then [] else var n := CircleStep(s); [n] + CircleRun(n)
  }

  /** The states at which `draw_circle` plots a batch: once before the loop, once per iteration. */
  function CircleBatches(radius: int): seq<CircleState> {
    [CircleStart(radius)] + CircleRun(CircleStart(radius))
  }

  /** The eight points `_plot_circle_points` writes, in its order. */
  function Octants(cx: int, cy: int, x: int, y: int): seq<Point> {
    [Point(cx + x, cy + y), Point(cx - x, cy + y), Point(cx + x, cy - y), Point(cx - x, cy - y),
     Point(cx + y, cy + x), Point(cx - y, cy + x), Point(cx + y, cy - x), Point(cx - y, cy - x)]
  }

  /** The points plotted for a sequence of batches around (cx, cy), in order. */
  function CirclePoints(cx: int, cy: int, batches: seq<CircleState>): seq<Point> {
    if batches == [] then []
    else
      var last := batches[|batches| - 1];
      CirclePoints(cx, cy, batches[..|batches| - 1]) + Octants(cx, cy, last.x, last.y)
  }

  /** The points `draw_circle` plots for centre (cx, cy) and the given radius. */
  function CirclePath(cx: int, cy: int, radius: int): seq<Point> {
    CirclePoints(cx, cy, CircleBatches(radius))
  }

  /** Plotting one more batch appends its eight points. */
  lemma CirclePointsAppend(cx: int, cy: int, batches: seq<CircleState>, s: CircleState)
    ensures CirclePoints(cx, cy, batches + [s]) == CirclePoints(cx, cy, batches) + Octants(cx, cy, s.x, s.y)
  {
    assert (batches + [s])[..|batches|] == batches;
  }

  /**
    The state of `draw_circle`'s loop: the batches done have been plotted,
    the last of them is the current state s, and the batches still to come
    are the run from s.
   */
  predicate CircleLoop(radius: int, done: seq<CircleState>, s: CircleState) {
    |done| >= 1 && done[|done| - 1] == s && CircleBatches(radius) == done + CircleRun(s)
  }

  /** Before the loop, the first batch is done. */
  lemma CircleLoopStart(cx: int, cy: int, radius: int)
    ensures CircleLoop(radius, [CircleStart(radius)], CircleStart(radius))
    ensures CirclePoints(cx, cy, [CircleStart(radius)]) == Octants(cx, cy, 0, radius)
  {
    CirclePointsAppend(cx, cy, [], CircleStart(radius));
  }

  /** While y >= x, running on from s is taking one step and running on from there. */
  lemma RunStep(prefix: seq<CircleState>, s: CircleState)
    requires s.y >= s.x
    ensures prefix + CircleRun(s) == (prefix + [CircleStep(s)]) + CircleRun(CircleStep(s))
  {
    var n := CircleStep(s);
    var rest := CircleRun(n);
    assert CircleRun(s) == [n] + rest;
    assert prefix + ([n] + rest) == (prefix + [n]) + rest;
  }

  /** While y >= x, one pass of the loop does the next batch. */
  lemma CircleLoopStep(radius: int, done: seq<CircleState>, s: CircleState)
    requires CircleLoop(radius, done, s) && s.y >= s.x
    ensures CircleLoop(radius, done + [CircleStep(s)], CircleStep(s))
  {
    RunStep(done, s);
  }

  /** Once y < x, every batch is done. */
  lemma CircleLoopEnd(radius: int, done: seq<CircleState>, s: CircleState)
    requires CircleLoop(radius, done, s) && s.y < s.x
    ensures CircleBatches(radius) == done
  {
    assert CircleRun(s) == [];
  }

  lemma {:induction false} CircleRunShape(s: CircleState)
    ensures var run := [s] + CircleRun(s);
      (forall i :: 0 <= i < |run| - 1 ==> run[i].y >= run[i].x && run[i + 1] == CircleStep(run[i])) &&
      run[|run| - 1].y < run[|run| - 1].x
    decreases s.y - s.x + 2
  {
    if s.y >= s.x {
      var n := CircleStep(s);
      CircleRunShape(n);
      var run := [s] + CircleRun(s);
      assert run[1..] == [n] + CircleRun(n);
    }
  }

  /**
    The batches of `draw_circle`: the first is at (0, radius); each later one
    has x one larger and y equal or one smaller; the loop runs while y >= x
    and stops at the first batch with y < x.
   */
  lemma CircleBatchesShape(radius: int)
    ensures var b := CircleBatches(radius);
      b[0].x == 0 && b[0].y == radius &&
      (forall i :: 0 <= i < |b| - 1 ==>
        b[i].y >= b[i].x && b[i + 1].x == b[i].x + 1 && b[i].y - 1 <= b[i + 1].y <= b[i].y) &&
      b[|b| - 1].y < b[|b| - 1].x
  {
    CircleRunShape(CircleStart(radius));
  }

  /** Batch k of a circle is exactly the eight octant points of state k, at positions 8k..8k+7. */
  lemma {:induction false} CirclePointsAreBatches(cx: int, cy: int, batches: seq<CircleState>)
    ensures |CirclePoints(cx, cy, batches)| == 8 * |batches|
    ensures forall k, i :: 0 <= k < |batches| && 0 <= i < 8 ==>
      CirclePoints(cx, cy, batches)[8 * k + i] == Octants(cx, cy, batches[k].x, batches[k].y)[i]
  {
    if batches != [] {
      var front := batches[..|batches| - 1];
      CirclePointsAreBatches(cx, cy, front);
      forall k, i | 0 <= k < |batches| && 0 <= i < 8
        ensures CirclePoints(cx, cy, batches)[8 * k + i] == Octants(cx, cy, batches[k].x, batches[k].y)[i]
      {
        if k < |front| {
          assert batches[k] == front[k];
        }
      }
    }
  }

  /**
    A circle of radius 0 plots its centre and its four diagonal neighbours:
    the first batch collapses to the centre, and one more iteration runs with
    x = 1, y = -1.
   */
  lemma CircleRadiusZero(cx: int, cy: int)
    ensures CircleBatches(0) == [CircleState(0, 0, 3), CircleState(1, -1, 21)]
    ensures forall p :: p in CirclePath(cx, cy, 0) <==>
      p == Point(cx, cy) || (Abs(p.x - cx) == 1 && Abs(p.y - cy) == 1)
  {
    assert CircleRun(CircleState(1, -1, 21)) == [];
    var b := CircleBatches(0);
    assert b == [CircleState(0, 0, 3), CircleState(1, -1, 21)];
    assert b[..1] == [CircleState(0, 0, 3)];
    assert b[..1][..0] == [];
    assert CirclePoints(cx, cy, b[..1]) == Octants(cx, cy, 0, 0);
    assert CirclePath(cx, cy, 0) == Octants(cx, cy, 0, 0) + Octants(cx, cy, 1, -1);
  }

  /** The mirror images of p about the centre's column, row and diagonal. */
  predicate MirrorsIn(cx: int, cy: int, p: Point, points: seq<Point>) {
    Point(2 * cx - p.x, p.y) in points &&
    Point(p.x, 2 * cy - p.y) in points &&
    Point(cx + (p.y - cy), cy + (p.x - cx)) in points
  }

  lemma OctantsSymmetric(cx: int, cy: int, x: int, y: int, p: Point)
    requires p in Octants(cx, cy, x, y)
    ensures MirrorsIn(cx, cy, p, Octants(cx, cy, x, y))
  {
    var oct := Octants(cx, cy, x, y);
    var i :| 0 <= i < 8 && oct[i] == p;
    if i == 0 { assert oct[1] == Point(2 * cx - p.x, p.y) && oct[2] == Point(p.x, 2 * cy - p.y) && oct[4] == Point(cx + (p.y - cy), cy + (p.x - cx)); }
    else if i == 1 { assert oct[0] == Point(2 * cx - p.x, p.y) && oct[3] == Point(p.x, 2 * cy - p.y) && oct[6] == Point(cx + (p.y - cy), cy + (p.x - cx)); }
    else if i == 2 { assert oct[3] == Point(2 * cx - p.x, p.y) && oct[0] == Point(p.x, 2 * cy - p.y) && oct[5] == Point(cx + (p.y - cy), cy + (p.x - cx)); }
    else if i == 3 { assert oct[2] == Point(2 * cx - p.x, p.y) && oct[1] == Point(p.x, 2 * cy - p.y) && oct[7] == Point(cx + (p.y - cy), cy + (p.x - cx)); }
    else if i == 4 { assert oct[5] == Point(2 * cx - p.x, p.y) && oct[6] == Point(p.x, 2 * cy - p.y) && oct[0] == Point(cx + (p.y - cy), cy + (p.x - cx)); }
    else if i == 5 { assert oct[4] == Point(2 * cx - p.x, p.y) && oct[7] == Point(p.x, 2 * cy - p.y) && oct[2] == Point(cx + (p.y - cy), cy + (p.x - cx)); }
    else if i == 6 { assert oct[7] == Point(2 * cx - p.x, p.y) && oct[4] == Point(p.x, 2 * cy - p.y) && oct[1] == Point(cx + (p.y - cy), cy + (p.x - cx)); }
    else { assert oct[6] == Point(2 * cx - p.x, p.y) && oct[5] == Point(p.x, 2 * cy - p.y) && oct[3] == Point(cx + (p.y - cy), cy + (p.x - cx)); }
  }

  /** The circle is symmetric under reflection in the centre's column, row and diagonal. */
  lemma {:induction false} CircleSymmetric(cx: int, cy: int, batches: seq<CircleState>, p: Point)
    requires p in CirclePoints(cx, cy, batches)
    ensures MirrorsIn(cx, cy, p, CirclePoints(cx, cy, batches))
  {
    var front := batches[..|batches| - 1];
    var last := batches[|batches| - 1];
    var earlier := CirclePoints(cx, cy, front);
    var oct := Octants(cx, cy, last.x, last.y);
    assert CirclePoints(cx, cy, batches) == earlier + oct;
    if p in oct {
      OctantsSymmetric(cx, cy, last.x, last.y, p);
    } else {
      CircleSymmetric(cx, cy, front, p);
    }
  }

  /** x^2 + y^2 - radius^2: how far a state's offset lies outside the true circle. */
  function Excess(radius: int, s: CircleState): int {
    s.x * s.x + s.y * s.y - radius * radius
  }

  /**
    What the loop keeps: d is 2 * Excess + 8x - 6y + 3 + 4 * radius, y never
    exceeds the radius, x is not negative, and the excess is at most radius
    while the loop continues (at most radius + 2 in the final batch).
   */
  predicate CircleInvariant(radius: int, s: CircleState) {
    s.d == 2 * Excess(radius, s) + 8 * s.x - 6 * s.y + 3 + 4 * radius &&
    s.y <= radius && 0 <= s.x &&
    (s.y >= s.x ==> Excess(radius, s) <= radius) &&
    Excess(radius, s) <= radius + 2
  }

  lemma ExcessAfterStep(radius: int, s: CircleState)
    ensures Excess(radius, CircleStep(s)) ==
      Excess(radius, s) + (if s.d > 0 then 2 * (s.x - s.y) + 2 else 2 * s.x + 1)
  {
    var x, y := s.x, s.y;
    assert (x + 1) * (x + 1) == x * x + 2 * x + 1;
    assert (y - 1) * (y - 1) == y * y - 2 * y + 1;
  }

  lemma CircleStepKeepsInvariant(radius: int, s: CircleState)
    requires CircleInvariant(radius, s) && s.y >= s.x
    ensures CircleInvariant(radius, CircleStep(s))
  {
    ExcessAfterStep(radius, s);
  }

  lemma {:induction false} CircleRunKeepsInvariant(radius: int, s: CircleState)
    requires CircleInvariant(radius, s)
    ensures forall t :: t in CircleRun(s) ==> CircleInvariant(radius, t)
    decreases s.y - s.x + 2
  {
    if s.y >= s.x {
      CircleStepKeepsInvariant(radius, s);
      CircleRunKeepsInvariant(radius, CircleStep(s));
    }
  }

  lemma {:induction false} CirclePointsOfBatches(cx: int, cy: int, batches: seq<CircleState>, p: Point)
    requires p in CirclePoints(cx, cy, batches)
    ensures exists k :: 0 <= k < |batches| && p in Octants(cx, cy, batches[k].x, batches[k].y)
  {
    var front := batches[..|batches| - 1];
    var last := batches[|batches| - 1];
    if p in Octants(cx, cy, last.x, last.y) {
      assert p in Octants(cx, cy, batches[|batches| - 1].x, batches[|batches| - 1].y);
    } else {
      CirclePointsOfBatches(cx, cy, front, p);
      var k :| 0 <= k < |front| && p in Octants(cx, cy, front[k].x, front[k].y);
      assert front[k] == batches[k];
    }
  }

  lemma OctantDistance(cx: int, cy: int, x: int, y: int, p: Point)
    requires p in Octants(cx, cy, x, y)
    ensures (p.x - cx) * (p.x - cx) + (p.y - cy) * (p.y - cy) == x * x + y * y
  {
    assert (-x) * (-x) == x * x && (-y) * (-y) == y * y;
  }

  /** Every batch of a circle of non-negative radius satisfies the loop invariant. */
  lemma CircleBatchInvariant(radius: int, k: int)
    requires radius >= 0 && 0 <= k < |CircleBatches(radius)|
    ensures CircleInvariant(radius, CircleBatches(radius)[k])
  {
    var start := CircleStart(radius);
    assert Excess(radius, start) == 0;
    if k > 0 {
      CircleRunKeepsInvariant(radius, start);
      assert CircleBatches(radius)[k] == CircleRun(start)[k - 1];
    }
  }

  /**
    For radius >= 1, every cell `draw_circle` plots lies within Euclidean
    distance radius + 1 of the centre. (Radius 0 is the exception: its
    diagonal neighbours lie at distance sqrt 2.)
   */
  lemma CircleWithinRadiusPlusOne(cx: int, cy: int, radius: int, p: Point)
    requires radius >= 1
    requires p in CirclePath(cx, cy, radius)
    ensures (p.x - cx) * (p.x - cx) + (p.y - cy) * (p.y - cy) <= (radius + 1) * (radius + 1)
  {
    var b := CircleBatches(radius);
    CirclePointsOfBatches(cx, cy, b, p);
    var k :| 0 <= k < |b| && p in Octants(cx, cy, b[k].x, b[k].y);
    var s := b[k];
    CircleBatchInvariant(radius, k);
    OctantDistance(cx, cy, s.x, s.y, p);
    var r2 := radius * radius;
    assert (radius + 1) * (radius + 1) == r2 + 2 * radius + 1;
    assert s.x * s.x + s.y * s.y == Excess(radius, s) + r2;
  }
}
