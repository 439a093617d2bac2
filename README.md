# emoteJAM core, modelled in Dafny

emoteJAM is a single-page tool. It runs a GLSL filter over an uploaded emote,
captures the animation into a GIF and offers the GIF for download. Most of
`index.js` is WebGL and DOM glue. This project models the sequential logic
inside it:

- **FrameFlip** (`frame_flip.dfy`): the vertical flip `render` applies in
  place to every RGBA frame read back from WebGL.
  - `FlipVertically` keeps the source's nested loops over an `array<Byte>`.
  - It is proved equal to the row-block reversal `Flipped`.
  - `Flipped` is proved to be an involution and a permutation, to send byte
    `(y, x)` to `(height - 1 - y, x)`, and to keep the middle row of an odd
    frame.
- **FileName** (`file_name.dfy`): `removeFileNameExt`, written as split on
  `'.'`, drop the last piece and re-join. Also the `download` name chosen by
  the render button.
- **QuadMesh** (`quad_mesh.dfy`): the loop that fills the 12-entry position
  buffer of the two-triangle quad from the bits of `quad = triangle + vertex`.
- **GalleryLayout** (`gallery_layout.dfy`): the filter gallery's grid
  arithmetic and `drawCheckeredPattern`.
  - The grid arithmetic covers the cell of filter `i`, the button square and
    the canvas height.
  - The pattern loop is a method. It is proved to draw exactly the sub-cells
    with `(i + j)` even, in row-major order: 50 of the 100.
- **GalleryCycler** (`gallery_cycler.dfy`): the `renderButtons` generator and
  the counters `step` drives, modelled as a class.
  - One call of `Next` is one `generator.next()`.
  - A saved gallery snapshot (`window.frames[i]`) is modelled as a map from
    filter index to the thumbnail composited into its cell.
- **CaptureSession** (`capture_session.dfy`): the `gif` variable and the
  render button's abort-then-start.
  - The history of jobs is kept.
  - The class invariant is that only the newest job may still be encoding, so
    at most one runs.

`options.dfy` holds the `Option` type used for "a file was chosen or not".

## Model

| member | source | states |
|---|---|---|
| FrameFlip.FlipVertically | index.js:757-770 | after the loops the buffer is the row-reversal `Flipped` of the frame read back; the multiset of byte values is unchanged |
| FrameFlip.SwapRowPair | index.js:760-768 | one pass of the inner loop exchanges row `y` and row `height - 1 - y` byte for byte and leaves every other byte where it was |
| FrameFlip.FlippedAt | index.js:762-767 | in the flipped frame, byte `y * 4w + x` is the original byte `(height - 1 - y) * 4w + x`; both offsets are in bounds and no byte changes column |
| FrameFlip.FlippedAtOffset | index.js:762-767 | the same byte-level mapping, stated on row offsets |
| FrameFlip.RowOfFlipped | index.js:757-770 | row `y` of the flipped frame is row `height - 1 - y` of the original |
| FrameFlip.MiddleRowFixed | index.js:758-759 | when the height is odd, the middle row `floor(height / 2)` is untouched |
| FrameFlip.FlipInvolution | index.js:757-770 | flipping twice gives back the original buffer |
| FrameFlip.FlipPermutes | index.js:757-770 | the flip only moves bytes: the multiset of values is preserved |
| FrameFlip.FlippedByRows | index.js:757-770 | a buffer whose every row `y` equals row `height - 1 - y` of another is that buffer's flip |
| FrameFlip.FlipStep | index.js:759-769 | swapping the next pair of rows extends the flipped outer band by one row and keeps the untouched middle |
| FrameFlip.FlipDone | index.js:758-759 | once `floor(height / 2)` pairs are swapped, the buffer is the full flip |
| FrameFlip.RowsExchanged | index.js:764-767 | swapping every byte of two disjoint rows exchanges the two rows |
| FrameFlip.RowKept | index.js:759-768 | a row other than the two being swapped is unchanged |
| FrameFlip.FrameBytesIsProduct | index.js:754 | the buffer length is `4 * width * height` |
| FrameFlip.RowStart | index.js:762-763 | the page's index `y * 4 * width` is where row `y` starts |
| FrameFlip.RowOffsetIsProduct | index.js:762-763 | the row offset is `y` times the row length |
| FrameFlip.RowBytes | index.js:760 | a row of a `width`-pixel frame is a whole number of 4-byte RGBA pixels, `width` of them |
| FrameFlip.FrameBytes | index.js:754 | a frame of at least one row holds at least one row's bytes; `FrameBytesIsProduct` gives the exact size |
| FileName.RemoveFileNameExt | index.js:817-823 | a name without a dot is returned unchanged |
| FileName.RemoveExtRebuilds | index.js:818-819 | for a name with a dot: result, `"."` and the dot-free last piece make up the name again |
| FileName.RemoveExtCutsAtLastDot | index.js:818-819 | for a name with a dot, the result is the name cut just before its last dot |
| FileName.RemoveExtLastOnly | index.js:818-819 | `"a.b.c"` becomes `"a.b"` |
| FileName.RemoveExtOfDotFile | index.js:818-819 | `".gif"` becomes `""` |
| FileName.JoinSplit | index.js:819 | joining the pieces of a split with the same separator gives back the string |
| FileName.SplitJoin | index.js:819 | splitting a join of separator-free pieces gives back the pieces |
| FileName.SplitSingle | index.js:818-819 | a split yields one piece exactly when the separator does not occur |
| FileName.Extension | index.js:819 | the dropped last piece holds no dot |
| FileName.DownloadName | index.js:937-939 | the name always ends in `.gif`; with no file chosen it is `result.gif` |
| FileName.DownloadNameOfFile | index.js:937-939 | with a file chosen: `name + ".gif"` for a dot-free name, otherwise the name with its last extension replaced by `gif` |
| FileName.Split | index.js:819 | `split('.')` yields at least one piece and no piece holds a dot |
| FileName.SplitKeepsEmptyPieces | index.js:819 | as in JavaScript, empty pieces are kept: `"a..b"` gives `["a", "", "b"]`, `".gif"` gives `["", "gif"]`, `"a."` gives `["a", ""]`, `""` gives `[""]`; the join of no pieces is `""` |
| FileName.Join | index.js:819 | `join('.')` of `k >= 1` pieces is at least `k - 1` characters long, one per separator |
| FileName.JoinEnds | index.js:819 | a join starts with its first piece and ends with its last |
| QuadMesh.FillMeshPositions | index.js:946-956 | the fresh 12-entry buffer holds, for each triangle `t` and vertex `v`, the corner of `quad = t + v` |
| QuadMesh.CornerBits | index.js:953-954 | `quad & 1` and `(quad >> 1) & 1` are the low and high bits of `quad`, for `quad < 4` |
| QuadMesh.CornerX | index.js:953 | the stored x is -1 or 1, and 1 exactly for odd `quad` |
| QuadMesh.CornerY | index.js:954 | the stored y is -1 or 1, and 1 exactly for `quad >= 2` |
| QuadMesh.Offset | index.js:950-954 | the entry index is below 12; dividing by 2 gives the vertex number `3 * triangle + vertex`, the remainder gives the axis, so distinct vertices and axes never share an entry |
| QuadMesh.StoreVertex | index.js:948-954 | one pass of the inner loop body writes the corner of its vertex and no other vertex |
| QuadMesh.VertexIsCorner | index.js:953-954 | each vertex of the buffer is a corner of the square `[-1, 1]²` |
| QuadMesh.MeshEntriesAreUnit | index.js:946-956 | every one of the 12 entries is -1 or 1 |
| QuadMesh.MeshUnique | index.js:946-956 | the buffer contents are determined: any two buffers the loop can produce are equal |
| QuadMesh.MeshVertices | index.js:946-956 | the six vertices are, in order, (-1,-1), (1,-1), (-1,1), (1,-1), (-1,1), (1,1) |
| QuadMesh.MeshCoversSquare | index.js:946-956 | the two triangles share corners 1 and 2, and together their vertices are exactly the four corners |
| GalleryLayout.CeilDiv | index.js:843 | `Math.ceil(a / b)` for whole numbers: the least `q` with `q * b >= a` |
| GalleryLayout.GalleryHeight | index.js:843 | the gallery canvas is at least 5 pixels tall |
| GalleryLayout.LayoutConstants | index.js:831-835 | `buttonArea` is 75 and `buttonSize` is 55; eight columns of cells span exactly the 600-pixel width |
| GalleryLayout.Cell | index.js:859-861 | the cell of filter `i` has a column below 8, and `row * 8 + column == i` |
| GalleryLayout.CellsDistinct | index.js:859-861 | distinct filters get distinct cells |
| GalleryLayout.CellOfIndex | index.js:859-861 | column `x < 8` of row `y` belongs to filter `8y + x`: every cell of the grid has exactly one button |
| GalleryLayout.CellOrigin | index.js:863 | a button's square starts one margin in: its left edge lies between 10 and 535 and its top edge is `10 + 75 * floor(i / 8)` |
| GalleryLayout.ThumbnailOrigin | index.js:1011-1013 | the spot where the cycler draws filter `f`'s thumbnail is the origin of button `f`'s square |
| GalleryLayout.ThumbnailStaysInCell | index.js:1011-1013 | the 55-pixel thumbnail of filter `f` overlaps the square of no other button |

| GalleryLayout.ButtonInsideGallery | index.js:843-869 | for `n` filters, each button square and its caption baseline lie inside the canvas of width 600 and height `75 * ceil(n / 8) + 5` |
| GalleryLayout.ButtonsDisjoint | index.js:863 | the squares of distinct buttons do not overlap |
| GalleryLayout.CheckeredRow | index.js:853-856 | the inner loop yields the filled sub-cells of row `j` |
| GalleryLayout.CheckeredPattern | index.js:848-858 | the nested loops yield the pattern's sub-cells on the 10 by 10 grid |
| GalleryLayout.RowCellIn | index.js:853-855 | a sub-cell is drawn by row `j`'s loop exactly when it lies in row `j`, column `< n` and has `(i + j)` even |
| GalleryLayout.RowCellsCount | index.js:853-855 | a row of even width `2k` draws `k` sub-cells |
| GalleryLayout.RowCellsOrdered | index.js:853-855 | a row draws its sub-cells left to right |
| GalleryLayout.PatternCellIn | index.js:852-855 | after `j` rows, a sub-cell is drawn exactly when its row is below `j`, its column below `n` and `(i + j)` is even |
| GalleryLayout.PatternCellsCount | index.js:852-855 | `j` rows of even width `n` draw `j * n / 2` sub-cells |
| GalleryLayout.PatternCellsOrdered | index.js:852-855 | sub-cells are drawn in row-major order, each once |
| GalleryLayout.PatternFilledOnly | index.js:848-858 | every drawn sub-cell is in the grid and has `(i + j)` even |
| GalleryLayout.PatternCoversFilled | index.js:848-858 | every sub-cell in the grid with `(i + j)` even is drawn |
| GalleryLayout.PatternSize | index.js:848-858 | an even grid of width `n` draws `n * n / 2` sub-cells: 50 for the page's 10 |
| GalleryLayout.SubCellRect | index.js:850-855 | each sub-cell is a tenth of the button's width and height, offset by its column and row |
| GalleryLayout.SubCellInside | index.js:849-855 | each filled sub-cell rectangle lies inside its button square |
| GalleryCycler.ThumbnailCycler.constructor | index.js:871 | the start state: 100 blank snapshots, `filterIndex`, clock and `frameToDraw` at 0, and the program loaded for the selected filter (index.js:888, 998-1000) |
| GalleryCycler.ThumbnailCycler.Next | index.js:1002-1024 | one `generator.next()`: a tick, a program switch, the generator's return, or nothing once it has returned |
| GalleryCycler.ThumbnailCycler.Tick | index.js:1004-1017 | tick `i` composites the current program's thumbnail, at the current clock, into snapshot `i` in the cell of `filterIndex`; it changes no other snapshot and advances the clock by one |
| GalleryCycler.ThumbnailCycler.SwitchProgram | index.js:1019-1022 | after 100 ticks the old program is deleted, `filterIndex` becomes `(filterIndex + 1) % n` and that filter's program is loaded |
| GalleryCycler.ThumbnailCycler.Step | index.js:1027-1047 | `step` advances the generator, shows snapshot `frameToDraw`, and moves `frameToDraw` round `[0, 100)` |
| GalleryCycler.ThumbnailCycler.RunFullPass | index.js:1002-1024 | after `n * 101` calls, every snapshot holds every filter's thumbnail at its own clock, `filterIndex` is back at 0, `n` programs have been deleted and `frameToDraw` is unchanged |
| GalleryCycler.SnapshotGrows | index.js:1013-1014 | compositing filter `d` into a snapshot adds exactly its thumbnail |
| GalleryCycler.TickKeepsSnapshots | index.js:1004-1017 | a tick keeps every snapshot equal to the thumbnails composited into it so far |
| GalleryCycler.SwitchKeepsSnapshots | index.js:1019-1022 | a program switch changes no snapshot |
| GalleryCycler.FullPassSnapshots | index.js:1003-1023 | after the pass, snapshot `s` holds filter `f`'s thumbnail at clock `100f + s`, drawn by filter `f`'s program, except that filter 0's was drawn by the selected filter's program |
| GalleryCycler.SwitchArithmetic | index.js:1020 | the index wraps to 0 after the last filter; clock and call count move on by one filter |
| GalleryCycler.ProgramFor | index.js:888 | a cell is drawn by a program other than its own filter's only for filter 0, and then by the program loaded for the selected filter; later cells get `buttons[filterIndex]`'s program (index.js:1021) |
| CaptureSession.RenderButton.constructor | index.js:896 | no job has been started |
| CaptureSession.RenderButton.OnClick | index.js:933-940 | a running job is aborted, the others are untouched, a new job named by `DownloadName` starts, and exactly one job then runs |
| CaptureSession.RenderButton.OnFinished | index.js:933-940 | the running job, if any, finishes, and no job runs afterwards |
| CaptureSession.AtMostOneRunning | index.js:933-940 | if only the newest job may run, at most one job runs |
| CaptureSession.StartWhenIdle | index.js:935-939 | starting a job when none runs leaves exactly that one running |
| CaptureSession.NoneRunning | index.js:935-936 | after the abort no job is running |

## Left out

- WebGL is not modelled: shader compile and link, `loadFilterProgram`, textures, uniforms, `drawArrays` and `readPixels`. These are foreign GPU calls. The frame read back is the input array of `FlipVertically`, and a thumbnail is the pair (program, clock) that would draw it.
- The GIF encoder library is not modelled: `addFrame`, `render`, the `finished` and `progress` events, `abort` and `running`. Only a job's running / finished / aborted state is kept.
- The capture loop's float time accumulation is not modelled (`t += dt` while `t <= duration`). Its frame count depends on floating-point rounding.
- Progress percentages are not modelled.
- DOM and canvas-2D calls are not modelled, apart from the grid and checker arithmetic: event wiring, `putImageData` and `getImageData` pixels, fill colours, text and `requestAnimationFrame`.
- The GLSL text of the filters table is not modelled. Neither is any claim about what a filter looks like.
- `shaderTypeToString` is not modelled. It only formats error messages.
- `filtersSelect.onchange` and the live preview's uniforms in `step` are not modelled. They only reload or feed the preview program.
- The `dt` and `start` timestamps in `step` are not modelled. They are wall-clock inputs.
- The second mesh loop (index.js:957-967) is not modelled separately. It is the same code filling the buttons' buffer, so `FillMeshPositions` models both.
- `FillMeshPositions` writes exact integers. The source stores them in a `Float32Array`, which holds -1 and 1 exactly.
- `timeForButtons += 16.666` is counted in whole ticks. The float value and its rounding are left out.
- Button canvas coordinates are whole numbers. They are the page's integer formulas: `buttonArea` is `Math.floor(600 / 8)`, and the canvas height uses `Math.ceil`, modelled by `CeilDiv`.
- ThumbnailCycler.Tick: the thumbnail's pixels and draw position are abstracted to the map key `filterIndex` of the snapshot. `GalleryLayout.ThumbnailOrigin` and `GalleryLayout.ThumbnailStaysInCell` prove that the draw position is button `filterIndex`'s square and overlaps no other button, but the cycler does not import that layout.
- SubCellInside: sub-cell rectangles use exact real arithmetic rather than JavaScript doubles, so rounding at the edges is not captured.
- CheckeredPattern: the pattern is returned as the sequence of filled sub-cells in drawing order rather than painted onto a canvas.
- RemoveFileNameExt: strings are sequences of characters, with no Unicode handling beyond that, which is enough for `split` and `join` on `'.'`.
- FlipVertically: `canvas.width` and `canvas.height` are unbounded naturals, with no 32-bit limit on the buffer length.
