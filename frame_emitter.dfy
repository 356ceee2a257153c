/**
  The frame emitter: the text `MonoGlyph.render` and `MonoGlyph.render_delta`
  write to standard output, as functions of the buffer's rows. Glyphs are
  opaque strings, emitted verbatim.
 */
module FrameEmitter {
  import opened Options
  import opened Decimal
  import opened Strings
  import Shader

  /** CUP with no parameters, `ESC [ H`: cursor to the home position. */
  const CursorHome: string := [Shader.Esc] + "[H"

  /** `"\n".join(lines)`. */
  function JoinLines(lines: seq<string>): string {
    if |lines| == 0 then ""
    else if |lines| == 1 then lines[0]
    else lines[0] + "\n" + JoinLines(lines[1..])
  }

  /** `s.split("\n")`: the pieces between line feeds, always at least one. */
  function SplitLines(s: string): (lines: seq<string>)
    ensures |lines| >= 1
    decreases |s|
  {
    match SplitAtFirst(s, '\n')
    case None => [s]
    case Some(parts) => [parts.0] + SplitLines(parts.1)
  }

  /** Joining lines that hold no line feed and splitting the result gives the lines back. */
  lemma {:induction false} SplitJoinLines(lines: seq<string>)
    requires |lines| >= 1
    requires forall i :: 0 <= i < |lines| ==> '\n' !in lines[i]
    ensures SplitLines(JoinLines(lines)) == lines
  {
    if |lines| == 1 {
      assert SplitAtFirst(lines[0], '\n').None?;
    } else {
      SplitAtFirstOf(lines[0], '\n', JoinLines(lines[1..]));
      SplitJoinLines(lines[1..]);
    }
  }

  /** The text of each row: `"".join(row)`. */
  function RowTexts(grid: seq<seq<string>>): seq<string>
  {
    seq(|grid|, y requires 0 <= y < |grid| => Concat(grid[y]))
  }

  /** `render`: cursor home, the rows joined by line feeds, and a final line feed. */
  function FullFrame(grid: seq<seq<string>>): string {
    CursorHome + JoinLines(RowTexts(grid)) + "\n"
  }

  /** No glyph of the grid holds a line feed. */
  predicate NoLineFeeds(grid: seq<seq<string>>) {
    forall y, x :: 0 <= y < |grid| && 0 <= x < |grid[y]| ==> '\n' !in grid[y][x]
  }

  /**
    A full frame reads back as its rows: after the cursor-home sequence and
    before the final line feed, splitting at line feeds gives each row's
    glyphs, concatenated.
   */
  lemma FullFrameRows(grid: seq<seq<string>>)
    requires |grid| >= 1 && NoLineFeeds(grid)
    ensures var s := FullFrame(grid);
      s[..|CursorHome|] == CursorHome && s[|s| - 1] == '\n' &&
      SplitLines(s[|CursorHome|..|s| - 1]) == RowTexts(grid)
  {
    var texts := RowTexts(grid);
    forall y | 0 <= y < |grid| ensures '\n' !in texts[y] {
      ConcatLacks(grid[y], '\n');
    }
    SplitJoinLines(texts);
    var s := FullFrame(grid);
    assert s[|CursorHome|..|s| - 1] == JoinLines(texts);
  }

  // ---------------------------------------------------------------------
  // Delta frames
  // ---------------------------------------------------------------------

  /** CUP, `ESC [ row ; col H`, to the 1-based row and column of cell (x, y). */
  function CursorTo(y: int, x: int): string {
    [Shader.Esc] + "[" + IntToString(y + 1) + ";" + IntToString(x + 1) + "H"
  }

  /** One changed cell: its row, its column and its new glyph. */
  datatype Change = Change(y: int, x: int, glyph: string)

  /** What `render_delta` appends for one changed cell. */
  function ChangeText(c: Change): (s: string)
    ensures |s| > 0
  {
    CursorTo(c.y, c.x) + c.glyph
  }

  /** The texts of a list of changes, in order. */
  function ChangeTexts(changes: seq<Change>): seq<string> {
    if changes == [] then [] else ChangeTexts(changes[..|changes| - 1]) + [ChangeText(changes[|changes| - 1])]
  }

  /** One change has one text. */
  lemma ChangeTextsSingle(c: Change)
    ensures ChangeTexts([c]) == [ChangeText(c)]
  {
    assert [c][..0] == [];
  }

  /** The texts of two lists of changes, one after the other, are the texts of the joined list. */
  lemma {:induction false} ChangeTextsAppend(a: seq<Change>, b: seq<Change>)
    ensures ChangeTexts(a + b) == ChangeTexts(a) + ChangeTexts(b)
  {
    if b == [] {
      assert a + b == a;
    } else {
      var front := b[..|b| - 1];
      assert (a + b)[..|a + b| - 1] == a + front;
      assert (a + b)[|a + b| - 1] == b[|b| - 1];
      ChangeTextsAppend(a, front);
    }
  }

  /** Two grids with the same number of rows and the same length row by row. */
  predicate SameShape(a: seq<seq<string>>, b: seq<seq<string>>) {
    |a| == |b| && forall y :: 0 <= y < |a| ==> |a[y]| == |b[y]|
  }

  /** The changes in row y among its first n columns, left to right. */
  function RowChanges(grid: seq<seq<string>>, prev: seq<seq<string>>, y: nat, n: nat): seq<Change>
    requires SameShape(grid, prev) && y < |grid| && n <= |grid[y]|
  {
    if n == 0 then []
    else
      RowChanges(grid, prev, y, n - 1) +
      (if prev[y][n - 1] != grid[y][n - 1] then [Change(y, n - 1, grid[y][n - 1])] else [])
  }

  /** One more cell of row y adds that cell's change when its glyph differs, and nothing otherwise. */
  lemma RowChangesStep(grid: seq<seq<string>>, prev: seq<seq<string>>, y: nat, n: nat)
    requires SameShape(grid, prev) && y < |grid| && n < |grid[y]|
    ensures prev[y][n] != grid[y][n] ==>
      RowChanges(grid, prev, y, n + 1) == RowChanges(grid, prev, y, n) + [Change(y, n, grid[y][n])]
    ensures prev[y][n] == grid[y][n] ==> RowChanges(grid, prev, y, n + 1) == RowChanges(grid, prev, y, n)
  {
    assert RowChanges(grid, prev, y, n) + [] == RowChanges(grid, prev, y, n);
  }

  /** The changes in the first m rows, in row-major order. */
  function GridChanges(grid: seq<seq<string>>, prev: seq<seq<string>>, m: nat): seq<Change>
    requires SameShape(grid, prev) && m <= |grid|
  {
    if m == 0 then [] else GridChanges(grid, prev, m - 1) + RowChanges(grid, prev, m - 1, |grid[m - 1]|)
  }

  /** Every cell whose glyph differs from the previous frame's, in row-major order. */
  function Changes(grid: seq<seq<string>>, prev: seq<seq<string>>): seq<Change>
    requires SameShape(grid, prev)
  {
    GridChanges(grid, prev, |grid|)
  }

  /** `prev_buffer` has `height` rows of `width` cells each: the check that enables delta output. */
  predicate ShapeMatches(prev: seq<seq<string>>, height: int, width: int) {
    |prev| == height && forall y :: 0 <= y < |prev| ==> |prev[y]| == width
  }

  /** `max(n, 0)`: the number of rows (columns) a buffer of height (width) n has. */
  function Dim(n: int): nat {
    if n < 0 then 0 else n
  }

  /** grid is the buffer of a canvas of the given height and width. */
  predicate IsBuffer(grid: seq<seq<string>>, height: int, width: int) {
    |grid| == Dim(height) && forall y :: 0 <= y < |grid| ==> |grid[y]| == Dim(width)
  }

  /**
    `render_delta`: the full frame when there is no previous frame or its
    shape differs from the canvas; otherwise one cursor move and glyph per
    changed cell, in row-major order.
   */
  function DeltaFrame(grid: seq<seq<string>>, prev: Option<seq<seq<string>>>, height: int, width: int): string
    requires IsBuffer(grid, height, width)
  {
    if prev.None? || !ShapeMatches(prev.value, height, width) then FullFrame(grid)
    else
      assert SameShape(grid, prev.value);
      Concat(ChangeTexts(Changes(grid, prev.value)))
  }

  // ---------------------------------------------------------------------
  // What the delta says
  // ---------------------------------------------------------------------

  /** c records a cell of grid whose glyph differs from prev's, with grid's glyph. */
  predicate IsChangeOf(grid: seq<seq<string>>, prev: seq<seq<string>>, c: Change)
    requires SameShape(grid, prev)
  {
    0 <= c.y < |grid| && 0 <= c.x < |grid[c.y]| &&
    prev[c.y][c.x] != grid[c.y][c.x] && c.glyph == grid[c.y][c.x]
  }

  /** a's cell comes before b's in row-major order. */
  predicate Before(a: Change, b: Change) {
    a.y < b.y || (a.y == b.y && a.x < b.x)
  }

  /** The changes are in strictly increasing row-major order. */
  predicate RowMajor(changes: seq<Change>) {
    forall i, j :: 0 <= i < j < |changes| ==> Before(changes[i], changes[j])
  }

  lemma {:induction false} RowChangesExact(grid: seq<seq<string>>, prev: seq<seq<string>>, y: nat, n: nat)
    requires SameShape(grid, prev) && y < |grid| && n <= |grid[y]|
    ensures forall c :: c in RowChanges(grid, prev, y, n) <==> IsChangeOf(grid, prev, c) && c.y == y && c.x < n
    ensures RowMajor(RowChanges(grid, prev, y, n))
  {
    if n > 0 {
      RowChangesExact(grid, prev, y, n - 1);
      var front := RowChanges(grid, prev, y, n - 1);
      var last := if prev[y][n - 1] != grid[y][n - 1] then [Change(y, n - 1, grid[y][n - 1])] else [];
      assert RowChanges(grid, prev, y, n) == front + last;
      forall i, j | 0 <= i < j < |front + last|
        ensures Before((front + last)[i], (front + last)[j])
      {
        if j == |front| {
          assert front[i] in front;
        }
      }
    }
  }

  lemma {:induction false} GridChangesExact(grid: seq<seq<string>>, prev: seq<seq<string>>, m: nat)
    requires SameShape(grid, prev) && m <= |grid|
    ensures forall c :: c in GridChanges(grid, prev, m) <==> IsChangeOf(grid, prev, c) && c.y < m
    ensures RowMajor(GridChanges(grid, prev, m))
  {
    if m > 0 {
      GridChangesExact(grid, prev, m - 1);
      RowChangesExact(grid, prev, m - 1, |grid[m - 1]|);
      var front, row := GridChanges(grid, prev, m - 1), RowChanges(grid, prev, m - 1, |grid[m - 1]|);
      assert GridChanges(grid, prev, m) == front + row;
      forall i, j | 0 <= i < j < |front + row|
        ensures Before((front + row)[i], (front + row)[j])
      {
        if i < |front| && |front| <= j {
          assert front[i] in front && row[j - |front|] in row;
        }
      }
    }
  }

  /**
    The changes `render_delta` emits are exactly the cells that differ from
    the previous frame, each with the current glyph, in row-major order.
   */
  lemma ChangesExact(grid: seq<seq<string>>, prev: seq<seq<string>>)
    requires SameShape(grid, prev)
    ensures forall c :: c in Changes(grid, prev) <==> IsChangeOf(grid, prev, c)
    ensures RowMajor(Changes(grid, prev))
  {
    GridChangesExact(grid, prev, |grid|);
  }

  /** Writes one change into a frame, as a terminal does after the cursor move. */
  function Put(frame: seq<seq<string>>, c: Change): (f: seq<seq<string>>)
    ensures SameShape(f, frame)
  {
    if 0 <= c.y < |frame| && 0 <= c.x < |frame[c.y]| then
      frame[c.y := frame[c.y][c.x := c.glyph]]
    else frame
  }

  /** Writes the changes into a frame, in order. */
  function Apply(frame: seq<seq<string>>, changes: seq<Change>): (f: seq<seq<string>>)
    ensures SameShape(f, frame)
  {
    if changes == [] then frame
    else Put(Apply(frame, changes[..|changes| - 1]), changes[|changes| - 1])
  }

  /** No change in the list is for cell (x, y). */
  predicate Untouched(changes: seq<Change>, y: int, x: int) {
    forall c :: c in changes ==> c.y != y || c.x != x
  }

  lemma {:induction false} ApplyCells(frame: seq<seq<string>>, changes: seq<Change>)
    requires RowMajor(changes)
    ensures forall c :: c in changes && 0 <= c.y < |frame| && 0 <= c.x < |frame[c.y]| ==>
      Apply(frame, changes)[c.y][c.x] == c.glyph
    ensures forall y, x :: 0 <= y < |frame| && 0 <= x < |frame[y]| && Untouched(changes, y, x) ==>
      Apply(frame, changes)[y][x] == frame[y][x]
  {
    if changes != [] {
      var init, last := changes[..|changes| - 1], changes[|changes| - 1];
      ApplyCells(frame, init);
      forall c | c in changes && 0 <= c.y < |frame| && 0 <= c.x < |frame[c.y]|
        ensures Apply(frame, changes)[c.y][c.x] == c.glyph
      {
        if c != last {
          var i :| 0 <= i < |changes| && changes[i] == c;
          assert i < |changes| - 1 && Before(changes[i], last);
          assert c in init;
        }
      }
      forall y, x | 0 <= y < |frame| && 0 <= x < |frame[y]| && Untouched(changes, y, x)
        ensures Apply(frame, changes)[y][x] == frame[y][x]
      {
        assert last in changes;
        forall c | c in init ensures c.y != y || c.x != x {
          assert c in changes;
        }
      }
    }
  }

  /**
    A terminal showing the previous frame and given the delta's changes ends
    up showing the current buffer.
   */
  lemma ApplyChanges(grid: seq<seq<string>>, prev: seq<seq<string>>)
    requires SameShape(grid, prev)
    ensures Apply(prev, Changes(grid, prev)) == grid
  {
    var changes := Changes(grid, prev);
    ChangesExact(grid, prev);
    ApplyCells(prev, changes);
    var f := Apply(prev, changes);
    forall y | 0 <= y < |grid| ensures f[y] == grid[y] {
      forall x | 0 <= x < |grid[y]| ensures f[y][x] == grid[y][x] {
        var c := Change(y, x, grid[y][x]);
        if prev[y][x] != grid[y][x] {
          assert c in changes;
        } else {
          forall c' | c' in changes ensures c'.y != y || c'.x != x {
            assert IsChangeOf(grid, prev, c');
          }
          assert Untouched(changes, y, x);
        }
      }
    }
  }

  /** Two frames of the same shape have no changes between them exactly when they are equal. */
  lemma ChangesEmptyIffSame(grid: seq<seq<string>>, prev: seq<seq<string>>)
    requires SameShape(grid, prev)
    ensures Changes(grid, prev) == [] <==> prev == grid
  {
    var changes := Changes(grid, prev);
    ChangesExact(grid, prev);
    if changes != [] {
      assert IsChangeOf(grid, prev, changes[0]);
    } else {
      forall y | 0 <= y < |grid| ensures prev[y] == grid[y] {
        forall x | 0 <= x < |grid[y]| ensures prev[y][x] == grid[y][x] {
          assert !IsChangeOf(grid, prev, Change(y, x, grid[y][x]));
        }
      }
    }
  }

  /**
    With a previous frame of the canvas's shape, the delta is empty exactly
    when nothing changed.
   */
  lemma DeltaEmptyIffUnchanged(grid: seq<seq<string>>, prev: seq<seq<string>>, height: int, width: int)
    requires IsBuffer(grid, height, width) && ShapeMatches(prev, height, width)
    ensures DeltaFrame(grid, Some(prev), height, width) == "" <==> prev == grid
  {
    assert SameShape(grid, prev);
    var changes := Changes(grid, prev);
    ChangesEmptyIffSame(grid, prev);
    ConcatEmpty(ChangeTexts(changes));
    if changes != [] {
      var texts := ChangeTexts(changes);
      assert texts[|texts| - 1] == ChangeText(changes[|changes| - 1]);
    }
  }

  /**
    A previous frame that differs from the canvas in exactly one cell gives a
    delta of one cursor move to that cell followed by its glyph.
   */
  lemma SingleChange(grid: seq<seq<string>>, prev: seq<seq<string>>, height: int, width: int, y: nat, x: nat)
    requires IsBuffer(grid, height, width) && ShapeMatches(prev, height, width)
    requires y < |grid| && x < |grid[y]| && prev[y][x] != grid[y][x]
    requires forall y', x' :: 0 <= y' < |grid| && 0 <= x' < |grid[y']| && prev[y'][x'] != grid[y'][x'] ==> y' == y && x' == x
    ensures DeltaFrame(grid, Some(prev), height, width) == CursorTo(y, x) + grid[y][x]
  {
    assert SameShape(grid, prev);
    var changes := Changes(grid, prev);
    ChangesExact(grid, prev);
    var c := Change(y, x, grid[y][x]);
    assert c in changes;
    forall i | 0 <= i < |changes| ensures changes[i] == c {
      assert IsChangeOf(grid, prev, changes[i]);
    }
    assert |changes| == 1 by {
      var last := |changes| - 1;
      assert changes[0] == c && changes[last] == c;
      assert !Before(changes[0], changes[last]);
      assert !(0 < last);
    }
    assert changes == [c];
    ChangeTextsSingle(c);
    assert Concat([ChangeText(c)]) == Concat([]) + ChangeText(c);
  }
}
