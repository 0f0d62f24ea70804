# pif in Dafny

pif is a small C library for palettized images. An image is a w×h buffer
of one-byte palette indices. Index 0 (`PIF_TRANSPARENT`) is a sentinel that
drawing never writes. A palette holds up to 256 RGB entries.

This project models four parts of the library (`pif.c` and `pif.h`) and
proves properties about them:

- **Palette code** (modules `Color`, `Blending`, `Colormaps`):
  - the squared RGB distance;
  - the nearest-colour search that skips the sentinel;
  - the RGBA32/ABGR32 pixel packers;
  - the colormap lookup of `PIF_blendColor`;
  - the colormap that `PIF_paletteCreateColormap` builds.
- **`PIF_Image` object**, modelled as the Dafny class `Images.Image`:
  - its fields are `w`, `h`, `size`, a byte `array` buffer and the shader;
  - its methods are proved against value-level specifications over a
    `Bitmap` snapshot.
- **Integer rasterisers** (modules `Lines`, `Circles`, `Shapes`, `Raster`):
  - the operations are the point plotter, Bresenham lines, rectangle and
    triangle outlines, the midpoint circle, the rectangle and disk fills,
    and the vertex sort of the triangle fill;
  - each drawing method is proved equal to `PlotAll(old buffer, points,
    colour)`. `PlotAll` applies `PIF_imageDrawPoint` to each point of a
    point-sequence function in turn;
  - lemmas about those point sequences state which cells are drawn and
    that no cell is drawn twice. The lemmas also cover end points,
    step sizes and symmetry.
- **Three file formats** (modules `Codec`, `Fonts`):
  - `PIFP` palettes, `PIFI` images and `PIFF` fonts;
  - each is an encoder to bytes and a decoder that returns the value and
    the remaining bytes, or the library's exact error message;
  - the `PIF_fontNew` glyph packing is included, because the font reader
    rebuilds positions with it.
  - Every decoder has a proved round trip and its converse: any accepted
    input is an encoding followed by the rest. There is also a failure
    lemma for every truncation point.
  - The writers and readers that loop in the source are methods. Each is
    proved equal to its pure encoder or decoder.

Where `pif.h` and `pif.c` differ, the model follows `pif.c`:

- `pif.h` declares a `skipTransparent` field in `PIF_Image`, but
  `pif.c` never reads it. The model's `PIF_imageDrawPoint` always drops
  index 0.
- `PIF_rgbToColor`, `PIF_ditherShader` and `PIF_paletteCreateRgbmap` are
  declared in `pif.h` but not defined in `pif.c`. They are not part of
  this model.

How the model maps the C code to Dafny:

- **Integers.** Fixed-width C values are `uint8` and `uint32` subset types of `int`.
  Where the source stores an `int` into a `uint8_t`, `Fonts.Wrap8` takes it
  modulo 256. Where `fputc` stores `size - 1`, `Codec.EncodePalette` also
  takes it modulo 256.
- **Shader.** The shader function pointer and its `data` pointer become
  the datatype `Raster.Shader`. It has three cases:
  - no shader;
  - the blend shader, which carries the colormap it reads;
  - any other shader, given as a function of the position, the old pixel
    and the colour.
- **Float inputs.** The colormap builder's float darkening and
  interpolation (`PIF_lerp`, `PIF_rgbLerp`) are function parameters
  `darken` and `lerp`.
- **Files.** The inputs to the readers and the outputs of the writers
  are byte sequences rather than `FILE` streams.

## Model

| member | source | states |
|---|---|---|
| Bytes.U32ToBytes | pif.c:104-109 | four bytes, least significant first |
| Bytes.BytesToU32 | pif.c:97-102 | four bytes read least significant first; `U32RoundTrip` and `BytesRoundTrip` prove it is the inverse of `U32ToBytes` |
| Bytes.U32RoundTrip | pif.c:97-109 | decoding the four bytes of a 32-bit value gives the value back |
| Bytes.BytesRoundTrip | pif.c:97-109 | encoding the value of any four bytes gives the same bytes |
| Bytes.Max | pif.c:22 | the result is one of the operands and no smaller than either; on a tie it is the second operand |
| Bytes.Min | pif.c:23 | the result is one of the operands and no larger than either; on a tie it is the first operand |
| Bytes.Swap | pif.c:13-20 | the two values change places |
| Bytes.Abs | pif.c:664-676 | the `abs` of the line's swap test and of distY: a non-negative value equal to a or -a |
| Color.PaletteNew | pif.c:209-219 | a palette of the requested size (at most 256) with every entry black |
| Color.RgbDiff | pif.c:153-158 | the sum of the squared channel differences; `RgbDiffIsADistance` states what it guarantees |
| Color.RgbDiffIsADistance | pif.c:153-158 | the distance is non-negative and symmetric, and zero exactly when the colours are equal |
| Color.ClosestBelow | pif.c:312-323 | the index the scan has chosen after n entries is below n, or is 0 |
| Color.ClosestBelowIsClosest | pif.c:312-323 | after n entries the scan holds the first non-sentinel index at minimal distance, or 0 when there is none |
| Color.Closest | pif.c:309-325 | the result is an index of the palette, or 0 |
| Color.ClosestIsClosest | pif.c:309-325 | `Closest` is the first non-sentinel entry at minimal distance, or 0 when the palette has no other entry |
| Color.IsClosestUnique | pif.c:309-325 | at most one index meets that specification, so the search is deterministic |
| Color.ClosestIsTransparentIff | pif.c:312-323 | the sentinel is returned exactly when the palette has at most one entry |
| Color.ClosestFindsExactMatch | pif.c:318-322 | an exact match at index i ≥ 1, with no equal entry between 1 and i, is returned |
| Color.PaletteClosest | pif.c:309-325 | the scan loop returns `Closest` and satisfies the nearest-colour specification |
| Color.RgbToPixelRgba32 | pif.c:168-176 | the packed word's bytes are 255, b, g, r from the least significant up |
| Color.RgbToPixelAbgr32 | pif.c:178-186 | the packed word's bytes are r, g, b, 255 from the least significant up |
| Color.RgbFromPixelRgba32 | pif.c:188-196 | r, g and b are the top three bytes of the word |
| Color.RgbFromPixelAbgr32 | pif.c:199-207 | r, g and b are the low three bytes of the word |
| Color.PixelPackRoundTrips | pif.c:168-207 | unpacking a packed colour gives it back, and the packed alpha byte is 255 |
| Color.PixelUnpackRoundTrips | pif.c:168-207 | packing an unpacked word gives it back exactly when its alpha byte is 255 |
| Grid.IndexInRange | pif.c:512-519 | the offset w·y + x of an in-image point lies inside the buffer |
| Grid.IndexInjective | pif.c:512-519 | distinct in-image points have distinct offsets |
| Grid.IndexSurjective | pif.c:512-519 | every buffer offset k is the offset of the in-image point (k mod w, k div w) |
| Grid.CellUpdate | pif.c:512-519 | writing at one point's offset changes that cell and no other |
| Grid.CellsDetermine | pif.c:512-519 | two buffers of the same shape are equal when all their cells are |
| Blending.BlendColor | pif.c:141-151 | a sentinel operand yields the other operand; otherwise the result is the colormap cell at column `from`, row `to + shades` |
| Blending.ColormapShape | pif.c:142 | the colormap shape that `PIF_blendColor` and `PIF_shadeColor` assert: more rows than columns |
| Blending.ColormapEntry | pif.c:327-366 | every colormap cell is a palette index or the sentinel |
| Blending.ShadeEntry | pif.c:333-348 | a shade-band cell: the sentinel in column 0, otherwise the palette entry nearest to the darkened colour; `Colormaps.ShadeCellValue` states it of the built colormap |
| Blending.BlendEntry | pif.c:356-360 | a blend-band cell: the sentinel when either index is 0, otherwise the entry nearest to the interpolation; `Colormaps.BlendCellValue` and `Colormaps.BlendThroughColormap` state it of the built colormap |
| Raster.Plot | pif.c:638-654 | drawing a point keeps the buffer's length, and keeps the blend shader's input condition |
| Raster.ShaderReady | pif.c:141-144 | the blend shader's input condition, which drawPoint reaches through pif.c:648-653 and 368-373: the colormap shape, and every colormap cell, buffer byte and the colour below `colormap.w`; `Plot` and `PlotAll` preserve it (see "## Left out") |
| Raster.ShadePixel | pif.c:368-374 | the value stored for a drawn pixel: the colour with no shader, `BlendColor(pixel, colour)` under the blend shader as `PIF_blendShader` stores it, otherwise the custom shader's value |
| Raster.PlotCells | pif.c:638-654 | the sentinel colour, or a point outside the image, changes nothing; otherwise the point's cell becomes the colour, or the shader's value, and every other cell is unchanged |
| Raster.PlotAll | pif.c:638-654 | `drawPoint` for each point in order; the buffer keeps its length and stays ready for the shader; the `PlotAll…` lemmas below say which cells change |
| Raster.PlotAllTransparent | pif.c:641-642 | drawing any points with the sentinel colour changes nothing |
| Raster.PlotAllOutside | pif.c:644-646 | drawing points that all lie outside the image changes nothing |
| Raster.PlotAllUntouched | pif.c:638-654 | under any shader, a cell whose point is not drawn keeps its value |
| Raster.PlotAllNoShader | pif.c:648-651 | with no shader, exactly the drawn in-image cells take the colour |
| Raster.PlotAllOnce | pif.c:368-374 | when no point repeats, each drawn cell gets the shader's value from its old byte; for the blend shader that is `BlendColor(old, c)` |
| Raster.PlotAllAppend | pif.c:638-654 | drawing a + b is drawing a, then b |
| Lines.Setup | pif.c:664-673 | after the swaps the endpoints are ordered along the major axis |
| Lines.SetupShape | pif.c:664-676 | the line is steep exactly when \|dy\| > \|dx\|; the major span is max(\|dx\|, \|dy\|) and is at least the minor span |
| Lines.SetupEnds | pif.c:664-673 | undoing the axis swap gives back both endpoints, in some order |
| Lines.TraceOf | pif.c:681-699 | the loop makes a2 - a1 + 1 steps |
| Lines.TracePoint | pif.c:681-699 | the point the loop visits at step i, swapped back for a steep line; `TraceSteps` and `TraceEnds` state its properties |
| Lines.LineTrace | pif.c:681-699 | every point the loop reaches, dashed or not; `LineTraceLength`, `LineTraceEnds`, `LineTraceSteps` and `LineTraceNoRepeats` state its properties |
| Lines.Walk | pif.c:675-699 | the error term and minor-axis count after i steps; `WalkInvariant`, `WalkNext` and `WalkReachesEnd` state its properties |
| Lines.WalkInvariant | pif.c:675-699 | the error term stays in [0, distX), and err + i·distY = distX/2 + k·distX where k is the number of minor steps |
| Lines.WalkNext | pif.c:693-697 | one step subtracts distY and, when the error becomes negative, adds distX and takes a minor step |
| Lines.WalkReachesEnd | pif.c:675-699 | after distX steps exactly distY minor steps have been taken |
| Lines.WalkFlat | pif.c:693-697 | a flat line never takes a minor step |
| Lines.LineTraceLength | pif.c:657-700 | a line visits max(\|dx\|, \|dy\|) + 1 points; a solid line draws all of them |
| Lines.LineTraceEnds | pif.c:657-700 | the trace starts at one endpoint and ends at the other |
| Lines.TraceEnds | pif.c:675-699 | in major-axis form the trace starts at (a1, b1) and ends at (a2, b2) |
| Lines.LineIncludesEndpoints | pif.c:657-700 | a solid line draws both endpoints |
| Lines.LineTraceSteps | pif.c:681-699 | consecutive points advance by one on the major axis and by at most one on the minor axis |
| Lines.TraceSteps | pif.c:681-699 | LineTraceSteps in major-axis form |
| Lines.LineTraceNoRepeats | pif.c:681-699 | the trace visits no point twice |
| Lines.HorizontalTrace | pif.c:657-700 | a horizontal line visits the cells between its endpoints, left to right |
| Lines.VerticalTrace | pif.c:657-700 | a vertical line visits the cells between its endpoints, top to bottom |
| Lines.Dashed | pif.c:680-691 | dashing never adds points |
| Lines.LinePoints | pif.c:657-700 | the dashed trace `PIF_imageDrawLine` draws; `LineTraceLength`, `LineTraceEnds` and `DashedMembers` state its properties |
| Lines.DashedSolid | pif.c:680-683 | with n ≤ 0 every step is drawn |
| Lines.DashedMembers | pif.c:680-691 | a point is drawn exactly when some step whose dash flag is on visits it |
| Lines.DashedNoRepeats | pif.c:680-691 | dashing keeps the trace free of repeated points |
| Lines.DashFlip | pif.c:680-683 | with n > 0 the flag is off at step 0 and flips at each multiple of n |
| Lines.DashOn | pif.c:682-683 | whether step i is drawn; `DashFlip` and `NextDraw` tie it to the loop's `draw = !draw` |
| Lines.NextDraw | pif.c:682-683 | the loop's flag update gives the dash flag of step i |
| Lines.ErrAdvance | pif.c:693-698 | the loop's error update follows the walk, and the minor coordinate moves by stepY exactly when k grows |
| Lines.LinePrefixStep | pif.c:681-699 | step i of the loop appends its point exactly when its dash flag is on |
| Lines.LinePrefixEnds | pif.c:680-699 | the loop starts with nothing drawn and ends with the line's drawn points |
| Circles.CircleStep | pif.c:749-759 | each iteration brings x and y strictly closer, so the loop ends |
| Circles.CircleStart | pif.c:727-731 | the loop's initial x, y, dx, dy and err, with `r << 1` as 2r; `CircleStartInv` and `CircleHeads` start from it |
| Circles.Octant | pif.c:727-760 | the loop-head states while x ≥ y; `CircleHeads` and `InvOnOctant` state its properties |
| Circles.CircleAdvance | pif.c:749-759 | the loop's updates, in the source's order, compute `CircleStep` |
| Circles.CircleStepInv | pif.c:727-759 | each iteration keeps err = x² + y² - r², dx = 2r - 2x - 1 and dy = 2y + 1, and while x ≥ y it keeps -2x - 1 ≤ err ≤ 0; y grows by one, and x drops by at most one |
| Circles.InvOnOctant | pif.c:727-759 | a loop head satisfying the invariant has 0 ≤ y ≤ x < r and x² + y² ≤ r² ≤ (x + 1)² + y² |
| Circles.CircleHeads | pif.c:733-759 | the i-th iteration's head has y = i and is an octant point |
| Circles.CircleEmpty | pif.c:727-734 | a radius r ≤ 0 draws nothing |
| Circles.CircleDrawnMembers | pif.c:733-747 | a point is drawn exactly when it is one of the eight reflections of a head whose dash flag is on |
| Circles.CircleDrawn | pif.c:734-747 | the points drawn for a sequence of heads, eight per head whose dash flag is on; `CircleDrawnMembers` states its members |
| Circles.CirclePointsMembers | pif.c:721-761 | for every n, the circle draws exactly the reflections of the octant heads whose dash flag is on |
| Circles.CirclePoints | pif.c:721-761 | the points `PIF_imageDrawCircle` draws; `CirclePointsMembers`, `CirclePointsOnCircle` and `CircleSymmetric` state its properties |
| Circles.EightSymmetric | pif.c:739-746 | each reflection of one of the eight points is again one of the eight |
| Circles.Reflections | pif.c:739-746 | the eight reflections of an offset about the centre, in the order of the eight drawPoint calls; `EightOffsets` and `EightSymmetric` state their properties |
| Circles.Eight | pif.c:739-746 | the eight points drawn for one head; `EightOnCircle` places them in the boundary band |
| Circles.EightOnCircle | pif.c:739-746 | for each of the eight points of an octant head, with offsets u and v from the centre and M = max(u, v), m = min(u, v): u² + v² ≤ r² ≤ (M + 1)² + m², and M < r |
| Circles.CirclePointsOnCircle | pif.c:721-761 | every drawn point satisfies those bounds |
| Circles.CircleSymmetric | pif.c:721-761 | the drawn set is symmetric about the vertical and horizontal lines through the centre and about the diagonal |
| Circles.CircleAxisPoints | pif.c:727-746 | a solid circle of radius r ≥ 1 draws the four axis points at distance r - 1 |
| Shapes.RowSolid | pif.c:657-700 | a solid horizontal segment visits the row cells between its ends |
| Shapes.ColSolid | pif.c:657-700 | a solid vertical segment visits the column cells between its ends |
| Shapes.TopSide | pif.c:712 | the top edge covers x .. x + w - 1 on row y |
| Shapes.LeftSide | pif.c:713 | the left edge covers rows y + 1 .. y + h of column x |
| Shapes.RightSide | pif.c:714-715 | the right edge covers rows y .. y + h - 1 of column x + w |
| Shapes.BottomSide | pif.c:716-717 | the bottom edge covers x + 1 .. x + w on row y + h |
| Shapes.SolidSides | pif.c:702-718 | a solid outline is exactly those four segments, in order |
| Shapes.RectSides | pif.c:712-717 | the four `drawLine` calls' endpoints in order; `TopSide`, `LeftSide`, `RightSide` and `BottomSide` state what each covers |
| Shapes.RectOutline | pif.c:712-717 | the four `drawLine` calls' points, in order; `RectOutlineIsBorder` and `RectOutlineOnce` state its properties |
| Shapes.RectOutlineIsBorder | pif.c:702-718 | with w, h ≥ 1 a solid outline covers exactly the border of [x, x + w] × [y, y + h] |
| Shapes.RectOutlineOnce | pif.c:702-718 | a solid outline draws no cell twice |
| Shapes.WholeImage | pif.c:808-810 | the rectangle `{0, 0, w, h}` used when none is given, here and at pif.c:708-710 |
| Shapes.TriangleOutlineHasVertices | pif.c:763-773 | a solid triangle outline passes through its three vertices |
| Shapes.TriangleOutlineSolid | pif.c:763-773 | a solid outline is the three edges' full traces in order, with max(\|dx\|, \|dy\|) + 1 points per edge |
| Shapes.TriangleOutline | pif.c:770-772 | the three `drawLine` calls' points, in order |
| Shapes.RowsMembers | pif.c:812-822 | the row-by-row scan covers exactly the cells of the rectangle |
| Shapes.Row | pif.c:816-821 | row y from lo to hi - 1, left to right, empty when lo ≥ hi |
| Shapes.Rows | pif.c:812-822 | rows ylo to yhi - 1, each a `Row`, top to bottom; `RowsMembers` states its members |
| Shapes.FillRectPoints | pif.c:812-822 | the rectangle clipped to the image, row by row; `FillRectFootprint` states its footprint |
| Shapes.FillRectFootprint | pif.c:802-823 | the fill covers exactly the in-image cells of the rectangle, each once |
| Shapes.DiskRowsMembers | pif.c:833-849 | the cells drawn for row counters 0 to m - 1 are exactly the cells whose counters r - dy and r - dx lie in range, that are in the image and that have dx² + dy² < r² |
| Shapes.DiskCell | pif.c:840-847 | the cell a counter pair draws: one point when it lies in the image and strictly inside the disk, else none |
| Shapes.DiskRow | pif.c:839-848 | the cells drawn for counters x in [0, k) of row y |
| Shapes.DiskRows | pif.c:833-849 | the cells drawn for row counters in [0, m); `DiskRowsMembers` states its members |
| Shapes.DiskPoints | pif.c:831-849 | both counters over [0, 2r); `DiskFootprint` states its footprint |
| Shapes.DiskFootprint | pif.c:825-850 | the disk fill covers exactly the in-image cells strictly inside radius r (none when r ≤ 0), each once |
| Shapes.DiskRowPastLeft | pif.c:839-842 | once a column maps left of the image, the rest of the row draws nothing, so the `break` is sound |
| Shapes.DiskRowsPastTop | pif.c:833-836 | once a row maps above the image, the later rows draw nothing, so the `break` is sound |
| Shapes.DiskRowEmpty | pif.c:834-837 | a row that maps outside the image draws nothing |
| Shapes.SortVertices | pif.c:903-915 | the three swaps order the vertices by y and permute them |
| Images.Resized | pif.c:521-545 | the resized buffer is nw×nh: the overlapping cells of the old image, zero elsewhere |
| Images.ResizedSame | pif.c:521-545 | resizing to the same size changes nothing |
| Images.ResizedGrowShrink | pif.c:521-545 | growing an image and shrinking it back restores it |
| Images.Converted | pif.c:499-510 | every converted pixel is the nearest entry of `to` to the old pixel's colour in `from` |
| Images.ConvertedToSelf | pif.c:499-510 | converting to the same palette keeps every non-sentinel pixel whose colour first appears at its own index |
| Images.ConvertedSentinel | pif.c:499-510 | when `to` has two or more entries, the sentinel is converted to a visible colour |
| Images.LineEnds | pif.c:664-673 | the swaps in the source compute `Setup` |
| Images.Image.Snapshot | pif.h:115-122 | the image's contents as a well-formed value |
| Images.Image.constructor | pif.c:406-416 | a zeroed w×h image with no shader |
| Images.Image.At | pif.c:512-519 | an offset exactly for in-image points, and that offset is w·y + x |
| Images.Image.SetShader | pif.c:492-497 | the shader changes; nothing else does |
| Images.Image.DrawPoint | pif.c:638-654 | the buffer becomes `Plot` of the old buffer |
| Images.Image.Clear | pif.c:547-551 | every byte becomes the colour |
| Images.Image.Resize | pif.c:521-545 | the new contents are `Resized` of the old ones; the shader is kept |
| Images.Image.CopyRow | pif.c:539-540 | after row y of the copy, the overlap cells of rows up to y hold their old values and every other cell is 0 |
| Images.Image.Copy | pif.c:553-562 | takes the source's size and bytes and keeps its own shader |
| Images.Image.Dup | pif.c:564-569 | a new image with equal contents and shader and its own buffer |
| Images.Image.ConvertPalette | pif.c:499-510 | the buffer becomes `Converted` of the old buffer |
| Images.Image.DrawLine | pif.c:657-700 | the buffer becomes `PlotAll` of the old buffer and the line's points |
| Images.Image.DrawTrace | pif.c:675-699 | the loop draws exactly the dashed trace |
| Images.Image.DrawStep | pif.c:685-691 | one step of the loop extends the drawn prefix of the dashed trace by step i |
| Images.Image.DrawRect | pif.c:702-718 | draws the four edges of the rectangle, or of the whole image when none is given |
| Images.Image.DrawCircle | pif.c:721-761 | the buffer becomes `PlotAll` of the old buffer and the circle's points |
| Images.Image.DrawEight | pif.c:739-746 | the eight drawPoint calls, in order |
| Images.Image.DrawHead | pif.c:738-747 | one iteration adds the head's eight points when its dash flag is on |
| Images.Image.DrawFour | pif.c:739-742 | four consecutive `drawPoint` calls are `PlotAll` over those points |
| Images.Image.DrawTriangle | pif.c:763-773 | draws the three edges, in order |
| Images.Image.FillRect | pif.c:802-823 | fills the rectangle's in-image cells row by row, or the whole image when none is given |
| Images.Image.FillArea | pif.c:805-822 | the fill for a given rectangle |
| Images.Image.FillRows | pif.c:812-822 | the row loop, with a `continue` above the image and a `break` below it |
| Images.Image.FillSpan | pif.c:816-821 | the column loop, with a `continue` left of the image and a `break` right of it |
| Images.Image.FillRowStep | pif.c:813-821 | one pass of the row loop extends `FilledRows` by row y |
| Images.Image.FillCircle | pif.c:825-850 | the buffer becomes `PlotAll` of the old buffer and the disk's points |
| Images.Image.DiskScanRows | pif.c:831-849 | the outer loop, with its `break` and `continue` |
| Images.Image.DiskScan | pif.c:839-848 | the inner loop, with its `break` and `continue` |
| Images.Image.DiskRowStep | pif.c:834-848 | one pass of the outer loop extends `FilledDisk` by row y, whether the row is skipped or scanned |
| Images.Image.DiskCellStep | pif.c:840-847 | one cell of the scan is drawn exactly when it lies in the disk and in the image |
| Colormaps.Colormap | pif.c:327-366 | the colormap is size × (size + shades) |
| Colormaps.ColormapCells | pif.c:327-366 | every cell is its `ColormapEntry` |
| Colormaps.ShadeCellValue | pif.c:331-351 | a shade-band cell is the sentinel in column 0, and otherwise the nearest entry to the darkened colour |
| Colormaps.BlendCellValue | pif.c:354-364 | the blend-band cell for (x, y) is the sentinel when either index is 0, and otherwise the nearest entry to `lerp` of the two colours |
| Colormaps.ColormapShaped | pif.c:141-151 | a built colormap has the shape `PIF_blendColor` asserts exactly when shades > 0 |
| Colormaps.BlendThroughColormap | pif.c:141-151 | blending through a built colormap: a sentinel operand yields the other one; otherwise the result is the nearest entry to `lerp` of the two colours |
| Colormaps.ColormapSentinels | pif.c:331-364 | every cell is an index of the palette or the sentinel; column 0 of both bands, and the blend row for index 0, hold the sentinel |
| Colormaps.CreateColormap | pif.c:327-366 | the two build loops produce a fresh image whose contents are `Colormap` |
| Colormaps.ShadeColumn | pif.c:332-351 | after the inner shade loop for column x, every cell written so far holds its `Colormap` value and the rest are still 0 |
| Colormaps.ShadeCell | pif.c:333-350 | writing shade cell (x, y) keeps that state: the written cells hold their `Colormap` values and the rest are 0 |
| Colormaps.BlendRow | pif.c:355-363 | after the inner blend loop for row y, every cell written so far holds its `Colormap` value and the rest are still 0 |
| Colormaps.BlendCell | pif.c:356-362 | writing blend cell (x, y) keeps that state: the written cells hold their `Colormap` values and the rest are 0 |
| Codec.Triples | pif.c:279-286 | the body holds r, g, b of every entry, in index order |
| Codec.ReadTriples | pif.c:241-250 | entry i is made from bytes 3i, 3i + 1 and 3i + 2 |
| Codec.DecodePalette | pif.c:221-253 | the reader and its four error messages; specified by `PaletteRoundTrip`, `PaletteDecodeEncode`, `PaletteTruncated` and `PaletteWrongMagic` |
| Codec.ReadTriplesOf | pif.c:241-286 | reading a written body gives back the entries |
| Codec.TriplesOfRead | pif.c:241-286 | writing the entries read from a body gives back that body |
| Codec.EncodePalette | pif.c:268-287 | the magic, then size - 1 modulo 256, then three bytes per entry |
| Codec.PaletteRoundTrip | pif.c:221-287 | a palette of 1 to 256 entries reads back as written, and the reader stops right after it |
| Codec.PaletteDecodeEncode | pif.c:221-287 | whatever the reader accepts is the encoding of the palette it returns, followed by the rest |
| Codec.PaletteTruncated | pif.c:221-253 | a cut-off file fails with the magic, maximum-index or body message, matching where it was cut |
| Codec.EmptyPaletteUnreadable | pif.c:268-287 | an empty palette is written with index byte 255, so reading it back fails unless 768 more bytes follow |
| Codec.PaletteWrongMagic | pif.c:229-230 | a different magic is reported as not a palette |
| Codec.PaletteWrite | pif.c:268-287 | the writing loop produces `EncodePalette` |
| Codec.PaletteRead | pif.c:221-253 | the reading loop produces `DecodePalette` |
| Codec.Storable | pif.c:465-466 | an image whose width and height fit the 32-bit header words that `PIF_write32` stores |
| Codec.EncodeImage | pif.c:457-470 | the magic, the two 32-bit header words, then the w·h pixel bytes |
| Codec.DecodeImage | pif.c:418-442 | the magic, two header words and the body, with the message of each failure; specified by `ImageRoundTrip`, `ImageDecodeEncode`, `ImageTruncated` and `ImageWrongMagic` |
| Codec.DecodePixels | pif.c:434-441 | the body read: w·h bytes, or the body error when fewer remain |
| Codec.DecodedImageStorable | pif.c:418-442 | a decoded image is well formed, and its dimensions fit in 32 bits |
| Codec.ImageRoundTrip | pif.c:418-470 | an image reads back as written, and the reader stops right after it |
| Codec.ImageDecodeEncode | pif.c:418-470 | whatever the reader accepts is the encoding of the image it returns, followed by the rest |
| Codec.ImageTruncated | pif.c:418-442 | a cut-off file fails with the magic, size or body message, matching where it was cut |
| Codec.ImageWrongMagic | pif.c:426-427 | a different magic is reported as not an image |
| Fonts.Wrap8 | pif.c:972-973 | storing an int in a uint8_t keeps values in 0 .. 255 unchanged |
| Fonts.Cursor | pif.c:964-975 | the `int` cursor (x, y) before glyph i; `CursorNonNegative`, `CursorRowsDescend` and `CursorRowMultiple` state its properties |
| Fonts.Place | pif.c:966-970 | where glyph i goes: a glyph that would pass the sheet's right edge starts a new row at x = 0 |
| Fonts.GlyphInfo | pif.c:972-974 | glyph i's stored entry: its position truncated to bytes, and its width |
| Fonts.Layout | pif.c:955-984 | the font `PIF_fontNew` returns; `LayoutWidths` and `FontNew` relate it to the packing |
| Fonts.CursorNonNegative | pif.c:964-976 | the packing cursor never moves left of the sheet |
| Fonts.PlaceFits | pif.c:964-976 | a glyph no wider than the sheet is placed inside it horizontally |
| Fonts.PlaceNext | pif.c:964-976 | the next glyph follows on the same row, or starts the next row chHeight lower at the left edge, according to whether it fits |
| Fonts.PlaceRowsDescend | pif.c:964-976 | with a non-negative height, rows only go down |
| Fonts.CursorRowMultiple | pif.c:964-976 | the cursor's y is k·chHeight for some k ≤ i, because y starts at 0 and only grows by chHeight |
| Fonts.PlaceRowMultiple | pif.c:964-976 | every glyph's y is k·chHeight for some k ≤ i + 1 |
| Fonts.CursorRowsDescend | pif.c:964-976 | the cursor's row only goes down, and glyph i - 1 sits on the cursor's row at i |
| Fonts.CursorPastRow | pif.c:964-976 | while the row stays the same, the cursor stays right of every glyph already placed on it |
| Fonts.PlaceNoOverlap | pif.c:964-976 | when chHeight > 0, a later glyph on the same row starts no further left than the end of an earlier one |
| Fonts.LayoutWidths | pif.c:955-984 | the built font keeps the given widths, in order |
| Fonts.FontNew | pif.c:955-984 | the packing loop builds `Layout`: each glyph's truncated position and its width, the height as a byte, and scale 1 |
| Fonts.Widths | pif.c:1055-1057 | one width per glyph, in glyph order |
| Fonts.FontHeader | pif.c:1045-1057 | the magic, the character and line spacing, the height, then 256 widths: 263 bytes |
| Fonts.EncodeFont | pif.c:1040-1061 | the header, then the sheet as an image; specified by `FontRoundTrip` and `FontDecodeEncode` |
| Fonts.DecodeFont | pif.c:986-1025 | the header fields in order, each with its message, then the sheet, repacked by `Layout`; specified by `FontRoundTrip`, `FontDecodeEncode` and `FontTruncated` |
| Fonts.FontRoundTrip | pif.c:986-1061 | a written font reads back with the same spacings, height, widths and sheet, with positions recomputed by the packing |
| Fonts.LayoutRoundTrip | pif.c:955-1061 | a font built by `PIF_fontNew` from a byte height reads back exactly |
| Fonts.FontDecodeEncode | pif.c:986-1061 | whatever the reader accepts is the encoding of the font it returns, followed by the rest |
| Fonts.FontTruncated | pif.c:986-1025 | a cut-off file fails with the message of the first missing field; a cut-off sheet fails with the image reader's message |
| Fonts.FontWrite | pif.c:1040-1061 | the writing loop produces `EncodeFont` |
| Fonts.FontRead | pif.c:986-1025 | the reader, which calls `PIF_fontNew`, produces `DecodeFont` |

## Left out

- Files: the `FILE` readers consume a byte sequence, and the writers produce one. `PIF_paletteLoad`, `PIF_paletteSave`, `PIF_Image_load`, `PIF_imageSave`, `PIF_fontLoad` and `PIF_fontSave` only open and close files, so they are not modelled. `PIF_read32` and `PIF_write32` are part of the image decoder and encoder.
- Memory: allocation, `realloc`, failure aborts and the `*Free` functions are not modelled. `PIF_imageResize` and `PIF_imageCopy` return a possibly moved image. The model keeps the same object with a fresh buffer.
- Aliasing: the blend shader's colormap, and a font's sheet, are held as values rather than pointers. A later change to the colormap or the sheet is therefore not seen by the image or the font.
- Shaders: a shader other than blending is an arbitrary function that returns the new pixel. The C shader receives the whole image and could change more than that pixel. `PIF_copyShader` and `PIF_exCopyShader` use floats and blitting and are not modelled.
- Floats:
  - not modelled: `PIF_shadeColor`, `PIF_rgbLerp`, `PIF_lerp`, the matrix helpers, `PIF_imageBlit`, `PIF_imageTransformBlit`, `PIF_imageRotateBlit`, the transformed and rotated rectangles, and the scan-line fill of `PIF_imageFillTriangle` (`PIF_imageFillFlatSideTriangle`);
  - modelled only in part: the triangle fill's vertex sort is modelled; the darkening factor and colour interpolation of `PIF_paletteCreateColormap` are function parameters.
- Text: `PIF_fontSetSpacing`, `PIF_fontSetScale`, `PIF_fontCharSize`, `PIF_fontTextSize`, `PIF_fontRenderChar`, `PIF_fontRenderText` and `PIF_fontNewDefault` with its built-in font data are not modelled. Fonts keep `scale` as a real number that is always 1.
- Asserts: the source's `PIF_assert` checks become preconditions. Examples are the colormap shape and index bounds in `PIF_blendColor` and the size bound in `PIF_paletteNew`. A null-pointer check has nothing to model.
- Images.Image.ConvertPalette: the model requires every pixel to be an index of `from`, as does `Images.Converted`. The source does not check this. It reads `from->map[*pixel]` unchecked, so a pixel at or past `from->size` reads outside the palette's allocation. That case is undefined behaviour in C and is not modelled.
- Raster.ShaderReady: the model asks for more than `PIF_blendColor`'s asserts. Under the blend shader, every drawing operation needs three things: the colormap's shape, every colormap cell and every byte of the buffer below `colormap.w`, and the colour below `colormap.w`. The source asserts the bounds only for a pixel it actually blends, which is one inside the image with a colour other than 0. So a call that blends nothing, such as a point off the image, is modelled only for buffers that meet the whole-buffer bound. A colormap built by `PIF_paletteCreateColormap` with shades > 0 meets the colormap parts (`Colormaps.ColormapShaped`, `Colormaps.ColormapSentinels`). An image drawn only with indices of that palette meets the buffer part. It is kept whole so that drawing provably preserves it from one point to the next.
- Images.Image.constructor: the `int` computations of w·h in `PIF_imageNew` are not modelled as overflowing. The model's integers are unbounded.
- Codec.DecodeImage: the conversion of the 32-bit header words to `int` and the `int` product w·h are not modelled as overflowing.
- Fonts.FontNew: the `int` cursor is unbounded and is not modelled as overflowing. Positions are truncated to bytes only as they are stored.
- Colormaps.CreateColormap: `shades` is a natural number. A negative `int` shades argument is not modelled.
- Drawing arithmetic: coordinates, `r << 1` (as 2r) and the products in the disk test are unbounded integers. These operations are not modelled as overflowing: `PIF_imageDrawLine`, `PIF_imageDrawCircle` and `PIF_imageFillCircle`.
- Images.Image.DrawLine: the error term is a `float` in the source. It only ever holds whole numbers, so the model uses an integer.
