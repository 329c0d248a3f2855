# render_engine in Dafny

A model of the software renderer in `render_engine.c` from the 3D maze game, with proofs
about it. The renderer draws a world of coloured triangles into a framebuffer of colour
indices, then streams that framebuffer to an ANSI terminal over a UART.

- **Framebuffer** (`framebuffer.dfy`, module `Framebuffers`). `framebuffer_t` is a class
  with a `width`, a `height` and a byte array stored row-major. It has three methods:
  - `Clear`, the clear loop of `Render_Engine_RenderFrame`. It keeps the source's
    `uint16_t` loop bound.
  - `PaintPixel`, a bounds-checked write at `x + y*width`.
  - `PaintPixelf`, which drops negative coordinates and truncates the rest.

  Each method is proved to produce the buffer a pure function describes. Lemmas about
  those functions say which pixel changes and which stay.
- **Geometry** (`geometry.dfy`). This covers the camera-relative deltas, `dotProduct`, the
  rear-hemisphere cull test and `compareTriangles`. The cull is proved exact: a triangle
  is culled iff every point of the triangle lies behind the camera, not only its three
  vertices. The comparator is proved to be an ordering.
- **Depth sort** (`depth_sort.dfy`). The working copy of the triangles is a fresh array,
  so the world's array is never reordered. `qsort` is modelled by its contract: the
  result is a permutation, ordered so that no triangle compares after a later one. That
  is farthest first, and it is proved equivalent to non-increasing squared centroid
  distance.
- **Classification** (`classify.dfy`). These are the comparison steps that pick `left`,
  `right` and `center`. They are proved equal to a direct statement of the choice,
  including the tie-breaks: the three always form a permutation of the vertices. The
  file also has the shape test and the y values of the single-column loop, which
  `Render.PaintColumn` walks.
- **Rendering** (`render.dfy`). `Render_Engine_RenderFrame` as a method:
  - it clears, copies, sorts and then, triangle by triangle, culls, projects,
    classifies and paints;
  - its result is stated as a function of the cleared buffer and the sorted order;
  - the painter's-algorithm property follows for frames of fewer than 65536 cells
    (width*height < 65536, so that the uint16_t clear reaches every cell). Every
    in-frame pixel that no triangle covers shows the background. A covered pixel shows
    the colour of a covering triangle that no other covering triangle is nearer than.
- **Terminal stream** (`terminal.dfy`). `writeTerminalBlock` appends one byte to the bytes
  sent so far. On top of it sit `writeTerminalNumber`, the colour and cursor escape
  sequences, and `Render_Engine_DisplayFrame`, whose loop carries `lastColor`. A decoder
  reads the stream back the way a terminal would. A round-trip lemma shows that the
  stream puts the cursor home, then gives every cell its row start, its colour and
  whether the colour was changed. The stream holds one space per cell.

Floats (`rounding_t`) are modelled as mathematical reals, and the `uint8_t` and `uint16_t`
values as bounded integer subset types. The one-byte wrap of `y + 1` in
`changeTerminalCursorLocation` is written out. So is the `uint16_t` truncation of
`width*height` in the clear loop.

## Model

| member | source | states |
|---|---|---|
| Framebuffers.Framebuffer.constructor | render_engine.h:162-166 | a framebuffer whose buffer holds exactly width*height cells |
| Framebuffers.Cleared | render_engine.c:51-53 | the buffer after the clear loop has the old length; ClearFillsFrame gives its cells |
| Framebuffers.Painted | render_engine.c:422-426 | the buffer after paintPixel has the old length; PaintedPixel gives each pixel's value |
| Framebuffers.PaintedF | render_engine.c:428-432 | the buffer after paintPixelf has the old length; PaintedFPixel gives each pixel's value |
| Framebuffers.PaintSeq | render_engine.c:428-432 | the buffer after a run of paintPixelf calls has the old length; PaintSeqPixel gives each pixel's value |
| Framebuffers.Framebuffer.Clear | render_engine.c:28-53 | the first (width*height) mod 65536 cells, the uint16_t bufLength, become the colour; the other cells keep their contents |
| Framebuffers.ClearFillsFrame | render_engine.c:51-53 | when width*height fits in uint16_t, every cell holds the background colour after the clear, whatever the buffer held before |
| Framebuffers.Framebuffer.PaintPixel | render_engine.c:422-426 | the buffer becomes `Painted`: one row-major write when x < width and y < height, no change otherwise |
| Framebuffers.PaintedPixel | render_engine.c:422-426 | after paintPixel, pixel (px, py) becomes the colour when (x, y) == (px, py), and keeps its old value otherwise |
| Framebuffers.PixelIndex | render_engine.c:424 | definition, no contract: the row-major index x + y*width; IndexInjective, IndexInBuffer and CellIsPixel state its properties |
| Framebuffers.IndexInjective | render_engine.c:424 | two in-row pixels with the same index x + y*width are the same pixel (no aliasing) |
| Framebuffers.IndexInBuffer | render_engine.c:424 | an in-frame pixel's index lies inside the buffer |
| Framebuffers.CellIsPixel | render_engine.c:424 | every buffer cell is the cell of one in-frame pixel |
| Framebuffers.Framebuffer.PaintPixelf | render_engine.c:428-432 | the buffer becomes `PaintedF`: unchanged for a negative coordinate, else paintPixel at the truncated coordinates |
| Framebuffers.PaintedFPixel | render_engine.c:428-432 | after paintPixelf, pixel (px, py) becomes the colour when the point is non-negative and truncates to (px, py), and keeps its old value otherwise |
| Framebuffers.PaintSeqPixel | render_engine.c:428-432 | after a run of paintPixelf calls in one colour, a pixel becomes that colour when some point lands on it, and keeps its old value otherwise |
| Geometry.DotOfCombination | render_engine.c:393-395 | dotProduct is linear in its first argument |
| Geometry.Dot | render_engine.c:393-395 | definition, no contract: the sum of the coordinate products; DotOfCombination proves it linear |
| Geometry.Delta | render_engine.c:75-83 | definition, no contract: the vertex minus the camera location, coordinate by coordinate; DeltaOfBlend relates it to blends |
| Geometry.Culled | render_engine.c:86-90 | definition, no contract: all three deltas have a non-positive dot product with the camera direction; CulledIffWholeTriangleBehind characterises it |
| Geometry.Centroid | render_engine.c:400-405 | definition, no contract: the coordinate-wise mean of the three vertices, as Distance uses it |
| Geometry.DeltaOfBlend | render_engine.c:75-83 | the camera-relative delta of a convex blend of the vertices is the same blend of their deltas |
| Geometry.CulledWholeTriangleBehind | render_engine.c:86-90 | if the cull test holds, every point of the triangle has a non-positive dot product with the camera direction |
| Geometry.CulledIffWholeTriangleBehind | render_engine.c:86-90 | the cull test holds iff every point of the triangle lies in the rear hemisphere |
| Geometry.Distance | render_engine.c:400-411 | the squared centroid distance is never negative |
| Geometry.CompareTriangles | render_engine.c:397-420 | 0 iff the distances are equal, 1 iff a is nearer, -1 iff a is farther |
| Geometry.CompareIsOrdering | render_engine.c:397-420 | the comparator is antisymmetric and reflexive, and "not after" is total and transitive |
| DepthSort.FarthestFirst | render_engine.c:66 | definition, no contract: qsort's ordering for compareTriangles, no triangle comparing after a later one; FarthestFirstByDistance characterises it |
| DepthSort.FarthestFirstByDistance | render_engine.c:66 | ordered under compareTriangles iff distances do not increase |
| DepthSort.Insert | render_engine.c:66 | inserting adds exactly one copy of the triangle |
| DepthSort.InsertSorted | render_engine.c:66 | inserting into a distance-sorted sequence keeps it sorted |
| DepthSort.InsertWithin | render_engine.c:66 | inserting keeps every distance under a common bound |
| DepthSort.SortedByDepth | render_engine.c:66 | the sorted sequence is a permutation of the input |
| DepthSort.SortedByDepthIsFarthestFirst | render_engine.c:66 | the sorted sequence meets qsort's ordering contract and is distance-sorted |
| DepthSort.CopyTriangles | render_engine.c:56-62 | the working copy is a fresh array with the world's triangles in the world's order |
| DepthSort.SortByDepth | render_engine.c:63-66 | after the sort the array is a permutation of its old contents, farthest first |
| Classify.Reference | render_engine.c:106-137 | the selectors are a permutation of 1..3 with left.x <= center.x <= right.x; left is the earliest of least x; right is the later one on a tie among the others |
| Classify.SelectVertices | render_engine.c:106-137 | the source's comparison steps, and the 3/4/5 sum for center, choose exactly the reference selection |
| Classify.ShapeOf | render_engine.c:140-166 | definition, no contract: Column when all three x are equal, TwoAligned when one neighbouring pair is, General otherwise; ShapeOfSelection characterises it |
| Classify.ShapeOfSelection | render_engine.c:140-166 | after selection the shape is a column iff all three x are equal, and general iff all three differ |
| Classify.Max3 | render_engine.c:147-153 | max is one of the three values and no smaller than any |
| Classify.Min3 | render_engine.c:154-160 | min is one of the three values and no larger than any |
| Classify.ColumnYs | render_engine.c:162-165 | definition, no contract: the y values of the loop, max first, one lower each step while above min; ColumnYsExact and ColumnSkipsBottomRow state which values they are |
| Classify.ColumnYsExact | render_engine.c:162-165 | the column loop visits max, max-1, ... while y > min, and stops at the first value that is not above min |
| Classify.ColumnSkipsBottomRow | render_engine.c:162-165 | for whole-numbered ends the loop visits max - min rows, floor max - k for each k, so row min is never painted |
| Render.ColumnSpan | render_engine.c:147-160 | the if-chains compute the maximum and minimum vertex y |
| Render.ColumnPixels | render_engine.c:162-165 | the column's points all lie at one x, one point per visited y, in loop order |
| Render.TrianglePixels | render_engine.c:73-326 | definition, no contract: no points for a culled triangle or an off-screen column, the column's points for a column, the rasterizer's points otherwise; RenderTriangle paints exactly these |
| Render.PaintColumn | render_engine.c:162-165 | the y-decrement loop paints exactly the column's points in order |
| Render.PaintPoints | render_engine.c:166-326 | a sequence of paintPixelf calls leaves the buffer that PaintSeq describes |
| Render.ColumnStaysInColumn | render_engine.c:140-165 | a column triangle covers only pixels at its truncated x, between its lowest and highest vertex |
| Render.RenderTriangle | render_engine.c:73-326 | one loop iteration: nothing for a culled triangle or an off-screen column; otherwise that triangle's points in its colour |
| Render.World.constructor | render_engine.h:156-160 | a world holding the given background colour and triangles |
| Render.RenderFrame | render_engine.c:27-328 | the world's triangles are unchanged; the order painted is a farthest-first permutation of them; the buffer is the cleared buffer painted triangle by triangle in that order |
| Render.LastCover | render_engine.c:73-326 | the index of the last triangle covering a pixel, or -1 when none does |
| Render.PaintTriangles | render_engine.c:73-326 | the buffer after painting a list of triangles in order has the old length; PaintTrianglesPixel gives each pixel's colour |
| Render.PaintTrianglesPixel | render_engine.c:73-326 | each pixel ends in the colour of the last triangle covering it, or keeps its colour |
| Render.PaintTrianglesStep | render_engine.c:73-326 | the first triangle's paint is either overwritten by a later one or shows |
| Render.LastCoverOfTail | render_engine.c:73-326 | the last cover of the list relates to the last cover of its tail |
| Render.LastCoverIsNearest | render_engine.c:63-66 | in a distance-sorted list the last covering triangle is no farther than any other covering one |
| Render.PainterVisibility | render_engine.c:51-326 | when width*height < 65536, after a frame an uncovered pixel shows the background and a covered pixel shows the colour of a nearest covering triangle |
| Render.AllCulledShowsBackground | render_engine.c:86-90 | when width*height < 65536 and every triangle is culled, the whole frame is background |
| Terminal.WriteTerminalBlock | render_engine.c:478-481 | exactly the one byte is appended to the stream |
| Terminal.NumberText | render_engine.c:444-467 | definition, no contract: nothing for 0, else the decimal digits; NumberTextDigits and NumberTextByPlaces state its properties |
| Terminal.DecimalDigits | render_engine.c:444-467 | the decimal text of a positive number is digits with no leading zero that read back as the number |
| Terminal.NumberTextDigits | render_engine.c:444-467 | writeTerminalNumber's text is at most three digits, reads back as n, has no leading zero, and is empty iff n == 0 |
| Terminal.NumberTextByPlaces | render_engine.c:444-467 | the text is the hundreds, tens and ones digits, each present once the number reaches its place |
| Terminal.WriteTerminalNumber | render_engine.c:444-467 | the atDigits steps append exactly the number's decimal text |
| Terminal.ChangeTerminalColor | render_engine.c:469-476 | appends ESC [ color m |
| Terminal.ColorText | render_engine.c:469-476 | definition, no contract: ESC [ then the colour's digits then m; ParseColorText reads it back |
| Terminal.ChangeTerminalCursorLocation | render_engine.c:435-442 | appends ESC [ (y+1 mod 256) ; (x+1 mod 256) H |
| Terminal.CursorText | render_engine.c:435-442 | definition, no contract: ESC [ then the digits of (y+1) mod 256, a semicolon, the digits of (x+1) mod 256, then H; ParseCursorText reads it back |
| Terminal.ParseCursorText | render_engine.c:435-442 | a cursor move for any x and y reads back as row (y+1) mod 256 and column (x+1) mod 256, and its own length |
| Terminal.ParseCursorWith | render_engine.c:435-442 | ESC [ digits ; digits H followed by anything reads back as the two numbers and its length |
| Terminal.DisplayFrame | render_engine.c:330-358 | the stream is the cursor-home sequence, then for each cell a CR LF when it starts a later row, a colour change when its colour differs from the last one sent (0 at first), and one space |
| Terminal.FrameText | render_engine.c:330-358 | definition, no contract: the home sequence, then every cell's text in order; DisplayRoundTrip and FrameSpaces state its properties |
| Terminal.RowStart | render_engine.c:343 | definition, no contract: cell i is a multiple of width other than 0; SkipRowBreakText reads its row break back |
| Terminal.ColorBefore | render_engine.c:338-353 | definition, no contract: lastColor before cell i, 0 before the first cell and the previous cell's colour after; DisplayFrame's loop invariant ties lastColor to it |
| Terminal.CellColorText | render_engine.c:349-353 | definition, no contract: the colour change sent when cell i's colour differs from ColorBefore; DecodeCell reads it back |
| Terminal.FrameSpaces | render_engine.c:341-357 | the stream holds exactly one space per cell |
| Terminal.HomeParses | render_engine.c:335 | the stream begins with ESC [ 1 ; 1 H, which reads back as row 1, column 1 |
| Terminal.ParseColorText | render_engine.c:469-476 | a colour change reads back as the colour it selects |
| Terminal.SkipRowBreakText | render_engine.c:343-346 | a row break is read exactly when cell i starts a later row |
| Terminal.DecodeCell | render_engine.c:341-357 | one cell's bytes read back as its row start, colour and recolour flag |
| Terminal.DecodeCellsFrom | render_engine.c:341-357 | the cells from any index on read back as their views |
| Terminal.DisplayRoundTrip | render_engine.c:330-358 | decoding the stream gives cursor (1, 1) and, for every cell, its colour, whether it starts a later row, and whether its colour was changed |

## Left out

- pointToScreen (render_engine.c:361-391) uses atan2, sqrt and angle wrapping. It is the `project` field of a `View`, a function the model takes as given.
- The camera heading computation uses fmod, cos, sin, tan and degree conversion (render_engine.c:29-47). It is the `direction` field of a `View`. The halfWidth, halfHeight and angle-per-pixel values feed only the projection, so they are not modelled either.
- The slope-walking scan conversion of the two-aligned and general shapes (render_engine.c:166-326) is the `rasterize` field of a `View`: the sequence of points passed to paintPixelf. Bounds, paint order and visibility are proved whatever points it yields. The exact pixel sets of those shapes are not modelled.
- The UART is not modelled. This covers the busy-waits on UART_IsTransmitting and hal_UART_SpaceAvailable, the hal_UART_TxByte call and the channel argument. Sending a byte is appending it to a sequence.
- qsort's algorithm is not modelled. The sort is an insertion sort standing in for it, and RenderFrame's contract holds for any farthest-first permutation, not only the one qsort picks. The static compareCamera is an explicit camera-location parameter.
- Float rounding is not modelled: coordinates, dot products and distances are exact reals. Comparisons that rounding could flip, such as equal distances or a dot product of exactly 0, are decided exactly.
- Render.PaintColumn: always ends, because `y - 1.0` on a real always decreases. In float, `y--` can leave y unchanged once |y| exceeds 2^24, where neighbouring floats are 2 apart. A column whose max is below -16777216 can then loop forever in C; the model does not capture that non-termination.
- Framebuffers.Framebuffer.PaintPixelf: requires each coordinate that passes the non-negative guard to be below 65536. The C cast to uint16_t has no defined result otherwise. RenderFrame, RenderTriangle, PaintColumn and PaintPoints carry the same requirement for every point they paint.
- Terminal.DisplayFrame: requires width*height < 65536. Its loop counter is a uint16_t compared against width*height, so a larger frame never ends the loop.
- Render.RenderFrame: requires fewer than 65536 triangles, the range of the uint16_t numTriangles. The triangle count is the length of the world's array.
- The usage example in the header comment (render_engine.h:23-106) is demo code and is not modelled.

Two behaviours of the code are worth stating plainly:
- writeTerminalNumber writes nothing at all for 0, because the ones digit is written only when it is non-zero or a higher digit was written. `Terminal.NumberTextDigits` states this.
- The column loop `for (y = max; y > min; y--)` stops before y reaches min. When max - min is a whole number, for instance when both ends are whole numbers, row min is therefore never painted. `Classify.ColumnSkipsBottomRow` states this for whole-numbered ends. With a fractional gap the last y visited is above min but can truncate to min's row: max = 5.5 and min = 2.0 visit 5.5, 4.5, 3.5 and 2.5, and 2.5 paints row 2.
