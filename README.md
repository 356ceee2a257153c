# MonoGlyph canvas, modelled in Dafny

`MonoGlyph` is a character-cell canvas for the terminal. It holds a buffer of
`height` rows of `width` glyph strings, initialised with a default glyph.
Drawing calls overwrite cells of that buffer:
- outlines: Bresenham lines, rectangles, triangles and midpoint circles;
- fills: scan-line triangles, rectangles (as two triangles) and discs;
- text, written one character per cell.

Every drawing call writes through one cell writer. It ignores cells outside the buffer
and, when all three colour components are given, wraps the glyph in a 24-bit
colour escape sequence. `clear` fills the buffer directly. `render` produces a full frame: cursor home, the rows
joined by line feeds, and a final line feed. `render_delta` produces only a
cursor move and a glyph for each cell that differs from a previous frame of
the same shape.

The project has one module per concern:

- `Options` (options.dfy): the `Option` type, for the optional colour
  components, the optional clear glyph and the optional previous frame.
- `Strings` (strings.dfy): `"".join`, and a split at the first occurrence of a
  separator that the frame and envelope read-back proofs use.
- `Decimal` (decimal.dfy): `str(n)` for integers, which the escape sequences
  embed, and a parser that inverts it.
- `Shader` (shader.dfy): `get_shade` (intensity to glyph) and `color_char`
  (the colour envelope), with a decoder that reads an envelope back.
- `Rasterizer` (rasterizer.dfy): the cell sequences of the outline
  algorithms, as functions of their loop state, and what is proved about them.
- `Filler` (filler.dfy): the cell sets of the fill algorithms, with the
  division of `_interp` as exact rationals truncated toward zero, and the
  square root of `fill_circle` as an integer square root.
- `FrameEmitter` (frame_emitter.dfy): the text of a full frame and of a delta
  frame, as functions of the buffer's rows.
- `Canvas` (canvas.dfy): the `MonoGlyph` class. Its buffer is an `array2` of
  strings. Each drawing method updates it in place with loops that mirror the
  Python ones (except `PlotOctants`, which loops over the eight reflections
  that the Python code plots with eight separate calls), and is proved to paint exactly the cell set its specification
  function names. `Painted(shape, glyph)` says that every in-buffer cell of
  `shape` now holds `glyph` and every other cell is unchanged. Cells of
  `shape` outside the buffer are ignored, as `_plot` ignores them.

Rotation is modelled at its initial value, zero. There `rotate_point(x, y)`
returns `(x, y)`, so every drawing call works on its arguments as given.

Two places in `monoglyph/monoglyph.py` differ from what they evidently mean,
and the model follows the evident meaning:
- line 148 reads `_]plot_circle_points(...)`, which does not parse; the model
  makes one call to the eight-point helper before the loop;
- lines 267-269 (`if output: sys.stdout.write("".join(output))`) parse, but
  they are indented at class level, so as written `render_delta` ends after
  its loops and never emits the delta, and the class body itself would fail
  on the undefined `output`. The model treats them as the tail of
  `render_delta`, so the delta frame is the join of the collected pieces
  (empty when nothing changed).

## Model

| member | source | states |
|---|---|---|
| Canvas.MonoGlyph.constructor | monoglyph/monoglyph.py:9-16 | stores width, height and default glyph (a space when none is given, as the parameter default at :9); the buffer has max(height, 0) rows of max(width, 0) cells, each the default glyph |
| Canvas.MonoGlyph.Rows | monoglyph/monoglyph.py:13 | definition: the buffer as the list of rows the Python code keeps; characterised by the contracts of `Canvas.MonoGlyph.Render` and `Canvas.MonoGlyph.RenderDelta`, which are stated over it |
| Canvas.MonoGlyph.Plot | monoglyph/monoglyph.py:48-53 | writes the ink's cell at (x, y) when 0 <= x < width and 0 <= y < height; every other cell (and the whole buffer when (x, y) is outside) is unchanged |
| Canvas.Ink.Cell | monoglyph/monoglyph.py:51-52 | definition: the glyph, wrapped by `color_char` exactly when all three components are present; characterised by `Canvas.InkCell` |
| Canvas.InkCell | monoglyph/monoglyph.py:51-52 | with all three components the written cell decodes back to the glyph and those components; with any missing, the cell is the bare glyph |
| Canvas.MonoGlyph.SetPixel | monoglyph/monoglyph.py:75-78 | with rotation at zero, paints exactly the one cell (x, y) |
| Canvas.MonoGlyph.DrawLine | monoglyph/monoglyph.py:84-108 | the Bresenham loop paints exactly the cells of `LinePath(x0, y0, x1, y1)` and nothing else |
| Rasterizer.LinePath | monoglyph/monoglyph.py:90-108 | definition: the cells the Bresenham loop plots, in order; characterised by `Rasterizer.LineEndpoints`, `Rasterizer.LineStepsAndBox` and `Rasterizer.LineIsCanonical` |
| Rasterizer.LineLoopStep | monoglyph/monoglyph.py:98-108 | one pass of the loop (e2 = 2 * err, the conditional x and y steps and error updates) extends the plotted prefix by the current cell and keeps the loop invariant that ties x, y and err to the step counts |
| Rasterizer.LineLoopEnd | monoglyph/monoglyph.py:99-101 | when the loop reaches the end point, the plotted cells plus the end cell are the whole path |
| Rasterizer.LineEndpoints | monoglyph/monoglyph.py:84-108 | the line is never empty; it starts at (x0, y0) and ends at (x1, y1) |
| Rasterizer.LineDegenerate | monoglyph/monoglyph.py:99-101 | a line from a point to itself plots that single cell |
| Rasterizer.LineStepsAndBox | monoglyph/monoglyph.py:102-108 | consecutive cells differ by one step toward the end point along x, y or both, never standing still; every cell lies in the bounding box of the two end points |
| Rasterizer.LineIsCanonical | monoglyph/monoglyph.py:90-108 | the line has max(\|dx\|, \|dy\|) + 1 cells, and each lies within half a cell of the ideal segment along the minor axis, measured at the cell's major-axis coordinate |
| Rasterizer.NearIdealStep | monoglyph/monoglyph.py:102-108 | each pass keeps the Bresenham deviation within the major extent and always advances along the major axis |
| Rasterizer.AxisAlignedLine | monoglyph/monoglyph.py:84-108 | a horizontal or vertical line plots exactly the cells between its end points |
| Canvas.MonoGlyph.DrawRect | monoglyph/monoglyph.py:111-119 | paints exactly the union of the four lines top, bottom, left and right |
| Rasterizer.RectOutlineIsBorder | monoglyph/monoglyph.py:111-119 | those four lines are exactly the border cells of the box x..x+w-1 by y..y+h-1, and nothing else |
| Canvas.MonoGlyph.DrawTriangle | monoglyph/monoglyph.py:122-125 | paints exactly the union of the lines v0-v1, v1-v2 and v2-v0 |
| Rasterizer.TriangleOutlineBounds | monoglyph/monoglyph.py:122-125 | the outline passes through all three vertices and stays within their bounding box |
| Rasterizer.Octants | monoglyph/monoglyph.py:138-145 | definition: the eight reflections `_plot_circle_points` writes, in its order; their symmetry is `Rasterizer.CircleSymmetric` |
| Canvas.MonoGlyph.PlotOctants | monoglyph/monoglyph.py:137-145 | paints exactly the eight reflections (cx ± x, cy ± y) and (cx ± y, cy ± x) |
| Canvas.MonoGlyph.DrawCircle | monoglyph/monoglyph.py:128-156 | one batch of eight before the loop and one per iteration paints exactly the cells of `CirclePath(xc, yc, radius)` |
| Rasterizer.CircleStep | monoglyph/monoglyph.py:150-155 | one iteration: x grows by one and y shrinks by at most one; that it keeps the decision-variable invariant is `Rasterizer.CircleStepKeepsInvariant` |
| Rasterizer.CircleBatches | monoglyph/monoglyph.py:132-156 | definition: the loop states at which a batch is plotted, one before the loop and one per iteration; characterised by `Rasterizer.CircleBatchesShape` |
| Rasterizer.CircleLoopStep | monoglyph/monoglyph.py:149-156 | one iteration (x += 1, then the d > 0 and d <= 0 updates) appends the next state to the batches plotted so far |
| Rasterizer.CircleLoopEnd | monoglyph/monoglyph.py:149 | once y < x the batches plotted are all of `CircleBatches(radius)` |
| Rasterizer.CircleBatchesShape | monoglyph/monoglyph.py:132-156 | the first batch is (0, radius); each later one has x one larger and y equal or one smaller; every batch but the last has y >= x and the last has y < x |
| Rasterizer.CirclePointsAreBatches | monoglyph/monoglyph.py:137-156 | the plotted points are the batches' eight reflections, in order, eight per batch |
| Rasterizer.CircleSymmetric | monoglyph/monoglyph.py:137-145 | every plotted point's mirror images in the centre's column, row and diagonal are plotted too |
| Rasterizer.CircleStepKeepsInvariant | monoglyph/monoglyph.py:150-155 | an iteration keeps d = 2(x² + y² - r²) + 8x - 6y + 3 + 4r and the bounds on the excess x² + y² - r² |
| Rasterizer.CircleBatchInvariant | monoglyph/monoglyph.py:132-156 | every batch of a circle of radius >= 0 satisfies that invariant |
| Rasterizer.CircleWithinRadiusPlusOne | monoglyph/monoglyph.py:128-156 | for radius >= 1 every plotted point lies within distance radius + 1 of the centre |
| Rasterizer.CircleRadiusZero | monoglyph/monoglyph.py:132-156 | radius 0 runs two batches, (0, 0) and (1, -1), and plots the centre and its four diagonal neighbours |
| Canvas.MonoGlyph.DrawText | monoglyph/monoglyph.py:159-161 | character k of the text is written at (x + k, y) with the given colour when that cell is in the buffer; every other cell is unchanged |
| Canvas.MonoGlyph.DrawHorizontalLine | monoglyph/monoglyph.py:167-171 | after swapping reversed ends, paints exactly the columns between the ends on row y, clipped to 0..width-1 |
| Canvas.MonoGlyph.FillRect | monoglyph/monoglyph.py:174-186 | paints exactly the union of the two triangle fills (TL, TR, BL) and (TR, BR, BL) |
| Filler.RectFillIsRect | monoglyph/monoglyph.py:174-186 | for w, h >= 1 those two fills cover exactly the box x..x+w-1 by y..y+h-1 |
| Canvas.MonoGlyph.FillTriangle | monoglyph/monoglyph.py:189-221 | the three compare-and-swaps followed by the two scan-line loops paint exactly `TriangleFillCells` of the three vertices |
| Canvas.MonoGlyph.FillSorted | monoglyph/monoglyph.py:209-221 | for vertices ordered by row, the flat-bottom loop over rows y0..y1-1 and the flat-top loop over rows y1..y2 paint exactly the spans `RowSpan` gives each row |
| Filler.FilledRowsStep | monoglyph/monoglyph.py:210-221 | drawing row y's span adds exactly that span to the rows already filled |
| Filler.SortByY | monoglyph/monoglyph.py:197-200 | the three compare-and-swaps leave the vertices ordered by row |
| Filler.SortByYPermutes | monoglyph/monoglyph.py:197-200 | they only reorder the vertices |
| Filler.Interp | monoglyph/monoglyph.py:203-206 | definition: `_interp` in exact rationals; characterised by `Filler.InterpExact` and `Filler.InterpBetween` |
| Filler.RowSpan | monoglyph/monoglyph.py:209-221 | definition: the truncated `_interp` end columns of row y of a sorted triangle, from the long edge and from the upper or lower short edge; its cells are added by `Filler.FilledRowsStep` |
| Filler.InterpBetween | monoglyph/monoglyph.py:203-206 | truncating `_interp` at a row between the two end rows gives a column between the two end columns |
| Filler.InterpExact | monoglyph/monoglyph.py:203-206 | `_interp` returns the start column at the start row (and at every row when the end rows coincide, the flat-edge guard), the end column at the end row, and that column when both columns agree |
| Filler.Trunc | monoglyph/monoglyph.py:213 | `int()` truncates toward zero: the integer at or below a non-negative value and at or above a non-positive one |
| Filler.TriangleFillInBox | monoglyph/monoglyph.py:189-221 | every filled cell lies in the bounding box of the three vertices |
| Filler.TriangleFillCoversVertices | monoglyph/monoglyph.py:189-221 | unless all three vertices share a row, all three are filled |
| Canvas.MonoGlyph.FillCircle | monoglyph/monoglyph.py:224-231 | the scan lines for dy from -radius to radius paint exactly `DiscCells(xc, yc, radius)` |
| Filler.DiscRowsStep | monoglyph/monoglyph.py:228-231 | drawing the span for offset dy adds exactly that row's cells of the disc |
| Filler.DiscIsEuclidean | monoglyph/monoglyph.py:224-231 | a cell is filled exactly when radius >= 0 and its squared distance from the centre is at most radius² |
| Filler.DiscRadiusZero | monoglyph/monoglyph.py:224-231 | a disc of radius 0 fills the centre alone |
| Filler.HalfWidth | monoglyph/monoglyph.py:230 | definition: the half-width `int(math.sqrt(radius**2 - dy**2))` of the span at row offset dy, as `Filler.ISqrt`; the spans make up the disc by `Filler.DiscIsEuclidean` |
| Filler.ISqrt | monoglyph/monoglyph.py:230 | `int(math.sqrt(n))` for n >= 0: the k with k² <= n < (k + 1)² |
| Canvas.MonoGlyph.Clear | monoglyph/monoglyph.py:235-241 | every cell holds the default glyph when the given glyph is missing or empty, and the given glyph otherwise |
| Canvas.MonoGlyph.Render | monoglyph/monoglyph.py:244-246 | the frame starts with cursor home and ends with a line feed; when the buffer has rows and no glyph holds a line feed, splitting what lies between at line feeds gives each row's glyphs joined |
| FrameEmitter.FullFrame | monoglyph/monoglyph.py:244-246 | definition: cursor home, the row texts joined by line feeds, and a final line feed; characterised by `FrameEmitter.FullFrameRows` |
| FrameEmitter.FullFrameRows | monoglyph/monoglyph.py:246 | the same read-back property for any non-empty grid whose glyphs hold no line feed |
| FrameEmitter.SplitJoinLines | monoglyph/monoglyph.py:246 | joining lines without line feeds by line feeds and splitting again gives the lines back |
| FrameEmitter.RowTexts | monoglyph/monoglyph.py:246 | definition: `''.join(row)` for each row; characterised by `FrameEmitter.FullFrameRows` |
| Canvas.MonoGlyph.RenderDelta | monoglyph/monoglyph.py:249-269 | returns the full frame when there is no previous frame or its shape differs from the canvas's; otherwise the join of one cursor move and glyph per changed cell, row by row |
| Canvas.MonoGlyph.RowDelta | monoglyph/monoglyph.py:262-265 | the inner loop collects, left to right, one piece for each cell of row y that differs from the previous frame |
| FrameEmitter.DeltaFrame | monoglyph/monoglyph.py:249-269 | definition: the full frame on fallback, otherwise the join of the per-change pieces; characterised by `FrameEmitter.ApplyChanges` and `FrameEmitter.DeltaEmptyIffUnchanged` |
| FrameEmitter.ShapeMatches | monoglyph/monoglyph.py:251-255 | definition: the previous frame has `height` rows of `width` cells, the negation of the fallback test |
| FrameEmitter.CursorTo | monoglyph/monoglyph.py:265 | definition: the 1-based cursor move `ESC[y+1;x+1H`; its use is shown by `FrameEmitter.SingleChange` |
| FrameEmitter.ChangesExact | monoglyph/monoglyph.py:261-265 | the collected changes are exactly the cells whose glyph differs from the previous frame, each with its current glyph, in strictly increasing row-major order |
| FrameEmitter.RowChangesExact | monoglyph/monoglyph.py:262-265 | the same for the first n cells of one row |
| FrameEmitter.GridChangesExact | monoglyph/monoglyph.py:261-265 | the same for the first m rows |
| FrameEmitter.ApplyChanges | monoglyph/monoglyph.py:260-268 | a terminal showing the previous frame and given the delta's changes in order ends up showing the current buffer |
| FrameEmitter.DeltaEmptyIffUnchanged | monoglyph/monoglyph.py:260-268 | with a previous frame of the right shape, the delta is empty exactly when the previous frame equals the buffer |
| FrameEmitter.ChangesEmptyIffSame | monoglyph/monoglyph.py:261-265 | no changes exactly when the two frames are equal |
| FrameEmitter.SingleChange | monoglyph/monoglyph.py:260-268 | a previous frame differing in one cell gives a single cursor move to that cell's 1-based row and column, followed by its glyph |
| FrameEmitter.ChangeTextsAppend | monoglyph/monoglyph.py:265 | the pieces for two runs of changes, one after the other, are the pieces for the joined run |
| Strings.Concat | monoglyph/monoglyph.py:268 | definition: `"".join(parts)`; characterised by `Strings.ConcatEmpty` and `Strings.ConcatPrefix` |
| Strings.ConcatEmpty | monoglyph/monoglyph.py:268 | a join is empty exactly when every part is empty |
| Shader.Clamp01 | monoglyph/monoglyph.py:36 | the clamped intensity lies in [0, 1], equals the intensity inside it, and is 0 below it and 1 above it |
| Shader.ShadeLevel | monoglyph/monoglyph.py:36-39 | level -1 (the default glyph) exactly for intensities <= 0; otherwise the index `int(clamped * 8)`, pinned as the level with level <= clamped · 8 < level + 1, so the last one for intensities >= 1 |
| Shader.Shade | monoglyph/monoglyph.py:34-40 | the default glyph for intensity <= 0, "@" for intensity >= 1, and otherwise exactly `SHADE_CHARS[int(clamped * 8)]`, the glyph at the shade level |
| Shader.ShadeMonotone | monoglyph/monoglyph.py:34-40 | a brighter intensity never selects a lower shade level (the default glyph is level -1, so it is not a claim about glyph density when the default glyph is denser than `.`) |
| Shader.ColorChar | monoglyph/monoglyph.py:43-45 | definition: the pieces of the f-string joined; characterised by `Shader.ColorCharPieces`, `Shader.ColorCharEnvelope` and `Shader.ColorCharRoundTrip` |
| Shader.ColorCharPieces | monoglyph/monoglyph.py:43-45 | the envelope is ESC `[38;2;`, r, `;`, g, `;`, b, `m`, the glyph, then ESC `[0m` |
| Shader.ColorCharEnvelope | monoglyph/monoglyph.py:43-45 | the envelope is longer than the glyph plus both escape sequences, starts with the true-colour introducer and ends with the reset |
| Shader.ColorCharRoundTrip | monoglyph/monoglyph.py:43-45 | decoding the envelope gives back exactly the glyph and the three components |
| Decimal.NatToString | monoglyph/monoglyph.py:45 | `str(n)` for n >= 0 is a non-empty run of digits without a leading zero |
| Decimal.NatToStringRoundTrip | monoglyph/monoglyph.py:45 | the digits of `str(n)` read back as n |
| Decimal.IntToString | monoglyph/monoglyph.py:45 | definition: `str(i)`, a minus sign before the digits of -i for negative i; characterised by `Decimal.IntToStringRoundTrip` and `Decimal.IntToStringChars` |
| Decimal.IntToStringRoundTrip | monoglyph/monoglyph.py:45 | `str(i)`, with its minus sign for negative i, parses back to i |
| Decimal.IntToStringChars | monoglyph/monoglyph.py:45 | `str(i)` is non-empty and holds only digits and a minus sign |

## Left out

- `set_rotation` and `rotate_point` (monoglyph/monoglyph.py:27-31, 56-73) are left out, together with the `current_angle`, `origin_x` and `origin_y` fields. Rotation is fixed at its initial value, zero, where `rotate_point` returns the point unchanged, so every rotated drawing path is absent. Non-zero rotation needs cosine, sine and float rounding, which this model does not have.
- `round()` in `rotate_point` at angle zero is applied to integer arguments, where it is the identity, and is modelled as such.
- The `logo` string (monoglyph/monoglyph.py:17-24) is demonstration text that no operation reads; it is not modelled.
- `render` and `render_delta` write to standard output with `print`, `sys.stdout.write` and `sys.stdout.flush`. The model returns the text they write instead; the flush has no counterpart.
- Writing nothing when no cell changed is modelled as returning the empty delta frame.
- Floats: `_interp` is modelled in exact rational arithmetic, truncated toward zero as `int()` does. `math.sqrt` followed by `int()` is modelled as the exact integer square root. Float rounding, which can differ from both for very large coordinates, is not modelled.
- Filler.TriangleFillCoversVertices: it says nothing about a triangle whose three vertices share a row. There the source draws only the span from the first to the second sorted vertex, so the third vertex can be missed.
- `get_shade`'s float intensity is an exact real. For finite floats this is exact, since clamping and `clamped * 8` lose nothing that changes the index. NaN and infinities have no counterpart: Python maps both NaN and +inf to `'@'` (`min(1.0, nan)` is `1.0`), and those inputs cannot be expressed here.
- Python's dynamic typing is not modelled: coordinates are integers, glyphs are strings of any length, and `_plot`'s `is not None` tests become `Option` values.
- `int(y0)` and similar casts in `fill_triangle` apply to integer coordinates and are the identity here.
- The demonstration script that drives the canvas is outside the modelled core.
