/**
  The canvas: a `MonoGlyph` holds a width, a height, a default glyph and a
  buffer of `height` rows of `width` glyph strings, and its drawing
  operations overwrite cells of the buffer in place. Every drawing operation
  writes through the cell writer `Plot`, which ignores cells outside the buffer.
  Rotation is fixed at zero, where rotating a point leaves it unchanged.
 */
module Canvas {
  import opened Options
  import opened Rasterizer
  import opened Filler
  import Shader
  import opened FrameEmitter
  import opened Strings

  /**
    The glyph and the optional colour components a drawing call is given:
    the cell holds the glyph wrapped in a colour envelope when all three
    components are given, and the bare glyph otherwise.
   */
  datatype Ink = Ink(glyph: string, r: Option<int>, g: Option<int>, b: Option<int>) {
    function Cell(): string {
      if r.Some? && g.Some? && b.Some? then Shader.ColorChar(glyph, r.value, g.value, b.value) else glyph
    }
  }

  /**
    A cell written with colour components holds an envelope that reads back
    as the glyph and those components; one written without all three holds
    the bare glyph.
   */
  lemma InkCell(ink: Ink)
    ensures ink.r.Some? && ink.g.Some? && ink.b.Some? ==>
      Shader.DecodeColour(ink.Cell()) == Some(Shader.Coloured(ink.glyph, ink.r.value, ink.g.value, ink.b.value))
    ensures !(ink.r.Some? && ink.g.Some? && ink.b.Some?) ==> ink.Cell() == ink.glyph
  {
    if ink.r.Some? && ink.g.Some? && ink.b.Some? {
      Shader.ColorCharRoundTrip(ink.glyph, ink.r.value, ink.g.value, ink.b.value);
    }
  }

  /** The ink `draw_text` writes the k-th character of text with. */
  function TextInk(text: string, k: int, r: Option<int>, g: Option<int>, b: Option<int>): Ink
    requires 0 <= k < |text|
  {
    Ink([text[k]], r, g, b)
  }

  /** The cells a list of points names. */
  ghost function CellsOf(points: seq<Point>): iset<Point> {
    iset p | p in points
  }

  /** The cells of a list with one more point are the cells before and that point. */
  lemma CellsOfAppend(points: seq<Point>, q: Point)
    ensures forall p :: p in CellsOf(points + [q]) <==> p in CellsOf(points) || p == q
  {
  }

  /** The cells of two lists joined are the cells of either. */
  lemma CellsOfConcat(a: seq<Point>, b: seq<Point>)
    ensures forall p :: p in CellsOf(a + b) <==> p in CellsOf(a) || p in CellsOf(b)
  {
  }

  class MonoGlyph {
    const width: int
    const height: int
    const defaultChar: string
    /** `buffer[y, x]` is the glyph of column x on row y. */
    const buffer: array2<string>

    /** The buffer has max(height, 0) rows of max(width, 0) cells. */
    ghost predicate Valid() {
      buffer.Length0 == FrameEmitter.Dim(height) && buffer.Length1 == FrameEmitter.Dim(width)
    }

    /** The buffer as a list of rows. */
    function Rows(): seq<seq<string>>
      reads buffer
    {
      seq(buffer.Length0, y requires 0 <= y < buffer.Length0 reads buffer =>
        seq(buffer.Length1, x requires 0 <= x < buffer.Length1 reads buffer => buffer[y, x]))
    }

    /**
      Since the state before the current operation, every cell of shape in
      the buffer now holds glyph and every other cell is as it was.
     */
    twostate predicate Painted(new shape: iset<Point>, new glyph: string)
      reads buffer
    {
      forall y, x :: 0 <= y < buffer.Length0 && 0 <= x < buffer.Length1 ==>
        buffer[y, x] == if Point(x, y) in shape then glyph else old(buffer[y, x])
    }

    /** `__init__`: a buffer of max(height, 0) rows of max(width, 0) default glyphs. */
    constructor(width: int, height: int, defaultChar: string := " ")
      ensures Valid() && fresh(buffer)
      ensures this.width == width && this.height == height && this.defaultChar == defaultChar
      ensures forall y, x :: 0 <= y < buffer.Length0 && 0 <= x < buffer.Length1 ==> buffer[y, x] == defaultChar
    {
      this.width, this.height, this.defaultChar := width, height, defaultChar;
      buffer := new string[FrameEmitter.Dim(height), FrameEmitter.Dim(width)]((y, x) => defaultChar);
    }

    /**
      `_plot`: writes the ink's cell at column x of row y when that cell lies
      inside the canvas; anywhere else it does nothing.
     */
    method Plot(x: int, y: int, ink: Ink)
      requires Valid()
      modifies buffer
      ensures Painted(iset{Point(x, y)}, ink.Cell())
    {
      if 0 <= x < width && 0 <= y < height {
        buffer[y, x] := ink.Cell();
      }
    }

    /** `set_pixel`: with rotation at zero, the point is plotted where it is. */
    method SetPixel(x: int, y: int, ink: Ink)
      requires Valid()
      modifies buffer
      ensures Painted(iset{Point(x, y)}, ink.Cell())
    {
      Plot(x, y, ink);
    }
  
    /**
      `draw_line`: Bresenham's algorithm from (x0, y0) to (x1, y1), plotting
      exactly the cells of `LinePath`.
     */
    method DrawLine(x0: int, y0: int, x1: int, y1: int, ink: Ink)
      requires Valid()
      modifies buffer
      ensures Painted(LineCells(x0, y0, x1, y1), ink.Cell())
    {
      var dx: int := Abs(x1 - x0);
      var dy: int := 0 - Abs(y1 - y0);
      var sx := if x0 < x1 then 1 else -1;
      var sy := if y0 < y1 then 1 else -1;
      var err := dx + dy;
      var x, y := x0, y0;
      ghost var ax: nat, ay: nat := 0, 0;
      ghost var done: seq<Point> := [];
      LineLoopStart(x0, y0, x1, y1);
      while true
        invariant LineLoop(x0, y0, x1, y1, done, ax, ay, x, y, err)
        invariant Painted(CellsOf(done), ink.Cell())
        decreases Abs(x1 - x0) - ax + Abs(y1 - y0) - ay
      {
        ghost var here := Point(x, y);
        Plot(x, y, ink);
        CellsOfAppend(done, here);
        assert Painted(CellsOf(done + [here]), ink.Cell());
        if x == x1 && y == y1 {
          LineLoopEnd(x0, y0, x1, y1, done, ax, ay);
          break;
        }
        ghost var err0 := err;
        var e2 := 2 * err;
        if e2 >= dy {
          err := err + dy;
          x := x + sx;
        }
        if e2 <= dx {
          err := err + dx;
          y := y + sy;
        }
        ghost var nax, nay := LineLoopStep(x0, y0, x1, y1, done, ax, ay, here.x, here.y, err0, x, y, err);
        done, ax, ay := done + [here], nax, nay;
      }
    }

    /**
      `_draw_horizontal_line`: plots row y from the smaller to the larger
      of the two ends, clipped to the columns of the canvas.
     */
    method DrawHorizontalLine(xStart: int, xEnd: int, y: int, ink: Ink)
      requires Valid()
      modifies buffer
      ensures Painted(SpanCells(xStart, xEnd, y, width), ink.Cell())
    {
      var lo, hi := xStart, xEnd;
      if lo > hi {
        lo, hi := hi, lo;
      }
      var x, stop := Max(0, lo), Min(width, hi + 1);
      while x < stop
        invariant Max(0, lo) <= x && (x <= stop || x == Max(0, lo))
        invariant Painted((iset p: Point | p.y == y && Max(0, lo) <= p.x < x), ink.Cell())
      {
        Plot(x, y, ink);
        x := x + 1;
      }
    }

    /** `draw_rect`: the top, bottom, left and right edges, each a line. */
    method DrawRect(x: int, y: int, w: int, h: int, ink: Ink)
      requires Valid()
      modifies buffer
      ensures Painted(RectOutlineCells(x, y, w, h), ink.Cell())
    {
      var right, bottom := x + w - 1, y + h - 1;
      DrawLine(x, y, right, y, ink);
      DrawLine(x, bottom, right, bottom, ink);
      assert Painted(LineCells(x, y, right, y) + LineCells(x, bottom, right, bottom), ink.Cell());
      DrawLine(x, y, x, bottom, ink);
      assert Painted(LineCells(x, y, right, y) + LineCells(x, bottom, right, bottom) + LineCells(x, y, x, bottom), ink.Cell());
      DrawLine(right, y, right, bottom, ink);
      assert RectOutlineCells(x, y, w, h) ==
        LineCells(x, y, right, y) + LineCells(x, bottom, right, bottom) + LineCells(x, y, x, bottom) + LineCells(right, y, right, bottom);
    }

    /** `draw_triangle`: the edges v0-v1, v1-v2 and v2-v0, each a line. */
    method DrawTriangle(x0: int, y0: int, x1: int, y1: int, x2: int, y2: int, ink: Ink)
      requires Valid()
      modifies buffer
      ensures Painted(TriangleOutlineCells(Point(x0, y0), Point(x1, y1), Point(x2, y2)), ink.Cell())
    {
      DrawLine(x0, y0, x1, y1, ink);
      DrawLine(x1, y1, x2, y2, ink);
      DrawLine(x2, y2, x0, y0, ink);
    }

    /**
      `_plot_circle_points`: plots the eight reflections of (x, y) about the
      centre (cx, cy), in the order `Octants` lists them.
     */
    method PlotOctants(cx: int, cy: int, x: int, y: int, ink: Ink)
      requires Valid()
      modifies buffer
      ensures Painted(CellsOf(Octants(cx, cy, x, y)), ink.Cell())
    {
      var points := Octants(cx, cy, x, y);
      for i := 0 to 8
        invariant Painted(CellsOf(points[..i]), ink.Cell())
      {
        Plot(points[i].x, points[i].y, ink);
        assert points[..i + 1] == points[..i] + [points[i]];
        CellsOfAppend(points[..i], points[i]);
      }
      assert points[..8] == points;
    }

    /**
      `draw_circle`: the midpoint circle of the given radius about
      (xc, yc), plotting the eight reflections of every state of the
      decision loop, exactly the cells of `CirclePath`.
     */
    method DrawCircle(xc: int, yc: int, radius: int, ink: Ink)
      requires Valid()
      modifies buffer
      ensures Painted(CellsOf(CirclePath(xc, yc, radius)), ink.Cell())
    {
      var cx, cy := xc, yc;
      var x, y, d := 0, radius, 3 - 2 * radius;
      ghost var done := [CircleState(x, y, d)];
      PlotOctants(cx, cy, x, y, ink);
      CircleLoopStart(cx, cy, radius);
      while y >= x
        invariant CircleLoop(radius, done, CircleState(x, y, d))
        invariant Painted(CellsOf(CirclePoints(cx, cy, done)), ink.Cell())
        decreases y - x + 2
      {
        ghost var s := CircleState(x, y, d);
        CircleLoopStep(radius, done, s);
        x := x + 1;
        if d > 0 {
          y := y - 1;
          d := d + 4 * (x - y) + 10;
        } else {
          d := d + 4 * x + 6;
        }
        PlotOctants(cx, cy, x, y, ink);
        CirclePointsAppend(cx, cy, done, CircleStep(s));
        CellsOfConcat(CirclePoints(cx, cy, done), Octants(cx, cy, x, y));
        done := done + [CircleStep(s)];
      }
      CircleLoopEnd(radius, done, CircleState(x, y, d));
    }

    /**
      `draw_text`: writes the i-th character of text at column x + i of
      row y, each in the given colour.
     */
    method DrawText(x: int, y: int, text: string, r: Option<int>, g: Option<int>, b: Option<int>)
      requires Valid()
      modifies buffer
      ensures forall k :: 0 <= k < |text| && 0 <= y < buffer.Length0 && 0 <= x + k < buffer.Length1 ==>
        buffer[y, x + k] == TextInk(text, k, r, g, b).Cell()
      ensures forall row, col ::
        0 <= row < buffer.Length0 && 0 <= col < buffer.Length1 && !(row == y && x <= col < x + |text|) ==>
          buffer[row, col] == old(buffer[row, col])
    {
      for i := 0 to |text|
        invariant forall k :: 0 <= k < i && 0 <= y < buffer.Length0 && 0 <= x + k < buffer.Length1 ==>
          buffer[y, x + k] == TextInk(text, k, r, g, b).Cell()
        invariant forall row, col ::
          0 <= row < buffer.Length0 && 0 <= col < buffer.Length1 && !(row == y && x <= col < x + i) ==>
            buffer[row, col] == old(buffer[row, col])
      {
        SetPixel(x + i, y, TextInk(text, i, r, g, b));
      }
    }

    /**
      `fill_triangle`: orders the vertices by row with three
      compare-and-swaps, then fills the sorted triangle.
     */
    method FillTriangle(x0: int, y0: int, x1: int, y1: int, x2: int, y2: int, ink: Ink)
      requires Valid()
      modifies buffer
      ensures Painted(TriangleFillCells(Point(x0, y0), Point(x1, y1), Point(x2, y2)), ink.Cell())
    {
      var v0, v1, v2 := Point(x0, y0), Point(x1, y1), Point(x2, y2);
      if v0.y > v1.y {
        v0, v1 := v1, v0;
      }
      if v0.y > v2.y {
        v0, v2 := v2, v0;
      }
      if v1.y > v2.y {
        v1, v2 := v2, v1;
      }
      assert Tri(v0, v1, v2) == SortByY(Tri(Point(x0, y0), Point(x1, y1), Point(x2, y2)));
      FillSorted(v0, v1, v2, ink);
    }

    /**
      The scan of `fill_triangle` over a triangle already sorted by row:
      one span per row, from the long edge v0-v2 to the short edge v0-v1 on
      the rows above v1, and to v1-v2 from v1's row down to v2's.
     */
    method FillSorted(v0: Point, v1: Point, v2: Point, ink: Ink)
      requires Valid()
      requires v0.y <= v1.y <= v2.y
      modifies buffer
      ensures Painted((iset p: Point | InFilledTriangle(Tri(v0, v1, v2), p)), ink.Cell())
    {
      ghost var t := Tri(v0, v1, v2);
      var y := v0.y;
      while y < v1.y
        invariant v0.y <= y <= v1.y
        invariant Painted(FilledRows(t, y), ink.Cell())
      {
        var sx := Interp(y, v0.y, v2.y, v0.x, v2.x);
        var ex := Interp(y, v0.y, v1.y, v0.x, v1.x);
        DrawHorizontalLine(Trunc(sx), Trunc(ex), y, ink);
        assert (Trunc(sx), Trunc(ex)) == RowSpan(t, y);
        forall p: Point | 0 <= p.x < width {
          FilledRowsStep(t, y, width, p);
        }
        y := y + 1;
      }
      while y <= v2.y
        invariant v1.y <= y <= v2.y + 1
        invariant Painted(FilledRows(t, y), ink.Cell())
      {
        var sx := Interp(y, v0.y, v2.y, v0.x, v2.x);
        var ex := Interp(y, v1.y, v2.y, v1.x, v2.x);
        DrawHorizontalLine(Trunc(sx), Trunc(ex), y, ink);
        assert (Trunc(sx), Trunc(ex)) == RowSpan(t, y);
        forall p: Point | 0 <= p.x < width {
          FilledRowsStep(t, y, width, p);
        }
        y := y + 1;
      }
      assert FilledRows(t, y) == (iset p: Point | InFilledTriangle(t, p));
    }

    /**
      `fill_rect`: the triangles (top-left, top-right, bottom-left) and
      (top-right, bottom-right, bottom-left), each filled.
     */
    method FillRect(x: int, y: int, w: int, h: int, ink: Ink)
      requires Valid()
      modifies buffer
      ensures Painted(RectFillCells(x, y, w, h), ink.Cell())
    {
      var right, bottom := x + w - 1, y + h - 1;
      FillTriangle(x, y, right, y, x, bottom, ink);
      label Upper:
      FillTriangle(right, y, right, bottom, x, bottom, ink);
      forall row, col | 0 <= row < buffer.Length0 && 0 <= col < buffer.Length1
        ensures buffer[row, col] ==
          if Point(col, row) in RectFillCells(x, y, w, h) then ink.Cell() else old(buffer[row, col])
      {
        var p := Point(col, row);
        var upper := p in TriangleFillCells(Point(x, y), Point(right, y), Point(x, bottom));
        var lower := p in TriangleFillCells(Point(right, y), Point(right, bottom), Point(x, bottom));
        RectFillHalves(x, y, w, h, p);
        assert old@Upper(buffer[row, col]) == if upper then ink.Cell() else old(buffer[row, col]);
        assert buffer[row, col] == if lower then ink.Cell() else old@Upper(buffer[row, col]);
        if upper || lower {
          assert p in RectFillCells(x, y, w, h) && buffer[row, col] == ink.Cell();
        } else {
          assert p !in RectFillCells(x, y, w, h) && buffer[row, col] == old(buffer[row, col]);
        }
      }
    }

    /**
      `fill_circle`: for each row offset dy from -radius to radius, the span
      of half-width `HalfWidth(radius, dy)` about the centre column.
     */
    method FillCircle(xc: int, yc: int, radius: int, ink: Ink)
      requires Valid()
      modifies buffer
      ensures Painted(DiscCells(xc, yc, radius), ink.Cell())
    {
      var cx, cy := xc, yc;
      var dy := -radius;
      while dy <= radius
        invariant dy == -radius || -radius <= dy <= radius + 1
        invariant Painted(DiscRows(cx, cy, radius, dy), ink.Cell())
      {
        var dx := HalfWidth(radius, dy);
        DrawHorizontalLine(cx - dx, cx + dx, cy + dy, ink);
        forall p: Point | 0 <= p.x < width {
          DiscRowsStep(cx, cy, radius, dy, width, p);
        }
        dy := dy + 1;
      }
      forall p: Point {
        DiscRowsAll(cx, cy, radius, dy, p);
      }
    }

    /**
      `clear`: every cell becomes the given glyph, or the default glyph
      when none (or the empty string) is given.
     */
    method Clear(fill: Option<string>)
      requires Valid()
      modifies buffer
      ensures forall y, x :: 0 <= y < buffer.Length0 && 0 <= x < buffer.Length1 ==>
        buffer[y, x] == if fill.None? || fill.value == "" then defaultChar else fill.value
    {
      var y := 0;
      while y < height
        invariant 0 <= y <= buffer.Length0
        invariant forall row, col :: 0 <= row < buffer.Length0 && 0 <= col < buffer.Length1 ==>
          buffer[row, col] ==
            if row < y then (if fill.None? || fill.value == "" then defaultChar else fill.value)
            else old(buffer[row, col])
      {
        var x := 0;
        while x < width
          invariant 0 <= x <= buffer.Length1
          invariant forall row, col :: 0 <= row < buffer.Length0 && 0 <= col < buffer.Length1 ==>
            buffer[row, col] ==
              if row < y || (row == y && col < x) then (if fill.None? || fill.value == "" then defaultChar else fill.value)
              else old(buffer[row, col])
        {
          if fill.None? || fill.value == "" {
            buffer[y, x] := defaultChar;
          } else {
            buffer[y, x] := fill.value;
          }
          x := x + 1;
        }
        y := y + 1;
      }
    }

    /**
      `render`: the cursor-home sequence, the rows joined by line feeds, and
      a final line feed. When no glyph holds a line feed, the text between
      the two reads back as the rows.
     */
    function Render(): (frame: string)
      reads buffer
      ensures |frame| > |CursorHome| && frame[..|CursorHome|] == CursorHome && frame[|frame| - 1] == '\n'
      ensures buffer.Length0 >= 1 && NoLineFeeds(Rows()) ==>
        SplitLines(frame[|CursorHome|..|frame| - 1]) == RowTexts(Rows())
    {
      var rows := Rows();
      if |rows| >= 1 && NoLineFeeds(rows) then
        FullFrameRows(rows);
        FullFrame(rows)
      else
        FullFrame(rows)
    }

    /**
      `render_delta`: the full frame when there is no previous frame or its
      shape is not the canvas's; otherwise, scanning rows top to bottom and
      each row left to right, a cursor move and the new glyph for every cell
      that differs from the previous frame.
     */
    method RenderDelta(prev: Option<seq<seq<string>>>) returns (out: string)
      requires Valid()
      ensures out == DeltaFrame(Rows(), prev, height, width)
    {
      if prev.None? || !ShapeMatches(prev.value, height, width) {
        return Render();
      }
      var previous := prev.value;
      ghost var rows := Rows();
      assert SameShape(rows, previous);
      var output: seq<string> := [];
      var y := 0;
      while y < height
        invariant 0 <= y <= height
        invariant output == ChangeTexts(GridChanges(rows, previous, y))
      {
        var texts := RowDelta(previous, y);
        ChangeTextsAppend(GridChanges(rows, previous, y), RowChanges(rows, previous, y, |rows[y]|));
        assert GridChanges(rows, previous, y + 1) == GridChanges(rows, previous, y) + RowChanges(rows, previous, y, |rows[y]|);
        output := output + texts;
        y := y + 1;
      }
      out := Concat(output);
    }

    /** The inner loop of `render_delta`: the texts for the changed cells of row y, left to right. */
    method RowDelta(previous: seq<seq<string>>, y: int) returns (texts: seq<string>)
      requires Valid() && ShapeMatches(previous, height, width) && 0 <= y < height
      ensures SameShape(Rows(), previous)
      ensures texts == ChangeTexts(RowChanges(Rows(), previous, y, |Rows()[y]|))
    {
      ghost var rows := Rows();
      assert SameShape(rows, previous) && |rows[y]| == width;
      texts := [];
      ghost var changes: seq<Change> := [];
      var x := 0;
      while x < width
        invariant 0 <= x <= width
        invariant changes == RowChanges(rows, previous, y, x)
        invariant texts == ChangeTexts(changes)
      {
        var glyph := buffer[y, x];
        assert rows[y][x] == glyph;
        RowChangesStep(rows, previous, y, x);
        if previous[y][x] != glyph {
          var change := Change(y, x, glyph);
          ChangeTextsAppend(changes, [change]);
          ChangeTextsSingle(change);
          changes := changes + [change];
          texts := texts + [ChangeText(change)];
        }
        x := x + 1;
      }
    }
  }
}
