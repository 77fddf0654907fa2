# CubeBox core in Dafny

A model of the core of CubeBox, a small C game engine, covering four parts:

- **Text rendering** (`cubebox/font.c`). Bjoern Hoehrmann's table-driven UTF-8 decoder. Each font's glyph cache, with atlas pages packed by a rectangle packer. The font registry (`cbLoadFont`, `cbDestroyFont`). `getQuad`. The two text loops, `cbTextWidth` and `cbRenderText`, with the quad batching of the font renderer.
- **The 2D renderer** (`cubebox/2d.c`). Images and subimages cut from a texture. Animated sprites. `cbRenderImage`, `cbRenderSprite` and `cbStop2DRenderer`, with their batching: quads are buffered while they share a texture, and the buffer is flushed as one draw call when the texture changes.
- **Tiled layers** (`cubebox/tiled.c`). Creating a layer, filling it, and rendering it cell by cell through the 2D renderer.
- **The linked list** of `cubebox/utils.c`.

Each part is one module:

| module | file | models |
|---|---|---|
| `CArith` | `c_arith.dfy` | C's truncating `/` and `%`, the `(int)` cast of a float, `(float) a / b` |
| `Batch` | `batch.dfy` | the batch protocol both renderers share, and its reference: one draw call per maximal run of quads with one texture |
| `Utf8` | `utf8.dfy` | the `utf8d` table as printed, `decode`, and the codepoints a NUL-terminated string yields |
| `GlyphCache` | `glyph_cache.dfy` | fonts, glyph records, atlas pages, `loadGlyph`, `createFontTexture`, `getQuad` |
| `FontRegistry` | `font_registry.dfy` | the static font array: `cbLoadFont` ids and `cbDestroyFont` |
| `Text` | `text.dfy` | `cbTextWidth` and `cbRenderText` |
| `Image2D` | `image2d.dfy` | textures, `cbCreateImage`, `cbCreateSubimage`, `cbRenderImage`, `cbStop2DRenderer` |
| `Sprite` | `sprite.dfy` | `cbCreateSprite`, `cbSpriteSetFrame`, `cbSpritePlayAnimation`, `cbSpriteStopAnimation`, `cbSpriteUpdate`, `cbRenderSprite` |
| `Tiled` | `tiled.dfy` | `cbCreateTiledLayer`, `cbFillTiledLayer` (as written and corrected), `cbRenderTiledLayer` |
| `LinkedList` | `linked_list.dfy` | `cbNewList`, `cbListGet`, `cbListInsert`, `cbListAppend`, `cbListPrepend`, `cbListRemove` on an explicit heap |

## How the model is set up

- **C arithmetic.** Integer division and remainder are C's, truncating toward zero (`CArith.CDiv`, `CArith.CMod`). This matters for the sprite and tile grids, which divide by the sheet width. `(int) x` truncates toward zero (`CArith.TruncToInt`). `uint32_t` shifts wrap modulo 2^32 (`Utf8.Append6`). Floats are read as reals, except that texture coordinates are `CArith.Float` values. These also carry the infinities and NaN that `(float) x / 0` produces for a texture of width or height 0 (`CArith.FDiv`).
- **The renderers' static state.** Each renderer keeps a current texture, a vertex buffer and a log of draw calls in a `Batcher` value. A flush becomes one log entry, `DrawCall(texture, vertices)`, instead of the OpenGL calls.
- **The quad batching.** Its reference is `Batch.Runs`: the submitted quads cut into maximal runs of one texture. `Batch.BatchedLog` shows that the renderers log exactly these runs.
- **Oracles.** Code the core calls but that is not part of it appears as parameters:
  - The rectangle packer (stb_rect_pack) is a `Packer`. It maps a page's history of requests and a new size to a placement. The packer is deterministic, so this is exact.
  - The rasteriser (stb_truetype) is a `Face`: a scale and the metrics of every codepoint.
  - GL texture names come from a counter, `names`.
  - The matrix and projection geometry of `cbRenderImage` is `place`, a function from an image to its four corners.
- **The linked list.** Nodes live at addresses in a map, and `free` is the next address the allocator hands out. A list is read through a ghost "spine", the addresses from `begin` to NULL. The contracts state the effect on the sequence of elements and that no other memory changes.

Where the code and its documentation differ, the model follows the code:

- REJECT is a sink. Neither text loop resets the decoder, so the first malformed byte ends the string (`Utf8.MalformedEndsString`, `Text.MalformedEndsText`).
- A lone 0xFF leaves the decoder in REJECT, not in its initial state (`Utf8.LoneFF`).
- `cbSpritePlayAnimation` does not call `cbSpriteSetFrame`. The frame shown does not change until the first step.
- The 2D renderer's `currentTexture` is static and is never reset by `cbStart2DRenderer` or `cbStop2DRenderer`. `cbRenderText` resets the font renderer's `currentTexture` to 0 on every call.

## Model

| member | source | states |
|---|---|---|
| CArith.CDiv | cubebox/2d.c:95-96 | C's `/`: the quotient's magnitude is the floor of abs(a) / abs(b), and a non-zero quotient is negative exactly when the operand signs differ (truncation toward zero) |
| CArith.CMod | cubebox/2d.c:95 | C's `%`: the remainder is smaller than the divisor in magnitude, and a non-zero remainder has the dividend's sign |
| CArith.DivModIdentity | cubebox/tiled.c:39-40 | `(a / b) * b + a % b == a` for the C operators |
| CArith.NonNegativeDivMod | cubebox/tiled.c:39-40 | on a non-negative dividend and a positive divisor, C's `/` and `%` agree with Euclidean division |
| CArith.TruncToInt | cubebox/font.c:376 | `(int) x` truncates toward zero: abs(n) <= abs(x) < abs(n) + 1, and a non-zero n has x's sign |
| CArith.Ratio | cubebox/2d.c:53-56 | `(float) a / d` is the q with q * d == a |
| CArith.FDiv | cubebox/2d.c:53-56 | `(float) a / d` is finite exactly when d is non-zero, and then its value times d is a. Dividing by zero gives +inf for a > 0, -inf for a < 0 and NaN for 0 / 0, as in IEEE 754 |
| Batch.QuadVertices | cubebox/2d.c:252-257 | a quad pushes six vertices: corners 0, 1, 2, 3, 1, 2, with u1 on the right and v1 at the bottom; the last two repeat the shared diagonal |
| Batch.Flush | cubebox/2d.c:184-207 | `flushRenderer`: an empty buffer logs nothing; otherwise one draw call of the current texture and the whole buffer is logged; the buffer ends empty |
| Batch.Submit | cubebox/2d.c:227-230 | the current texture becomes the quad's; the buffer is flushed exactly when the texture changes; the quad's six vertices are appended |
| Batch.BatchedLog | cubebox/2d.c:225-230 | from an empty buffer, submitting quads and flushing logs exactly one draw call per maximal run of one texture, in order, and leaves the buffer empty |
| Batch.RunsAreMaximal | cubebox/2d.c:227-229 | neighbouring draw calls have different textures |
| Batch.RunsHoldWholeQuads | cubebox/2d.c:252-257 | every draw call holds a non-empty sequence of whole six-vertex quads |
| Batch.RunsKeepOrder | cubebox/2d.c:252-257 | the draw calls, concatenated, carry every submitted vertex once, in submission order |
| Batch.RunsCount | cubebox/2d.c:227-229 | the number of draw calls is one more than the number of texture changes between neighbouring quads |
| Batch.OneTextureOneRun | cubebox/2d.c:227-229 | quads that all use one texture are drawn by a single call holding all their vertices |
| Utf8.ByteClassTable | cubebox/font.c:24-32 | the first 256 entries of `utf8d` are the byte classes of the byte ranges of section 4 of RFC 3629 |
| Utf8.TransitionTable | cubebox/font.c:33-37 | the transition entries are the automaton's next states; every one is a state 0..8, so the index `256 + state*16 + type` stays below 400 |
| Utf8.Append6 | cubebox/font.c:44 | the continuation step `codep << 6` on `uint32_t`: the result is a `uint32_t` whose low six bits are the byte's, and below 2^26 the value is shifted without loss |
| Utf8.TableDecode | cubebox/font.c:40-49 | one call of `decode` through the flat table keeps the state in 0..8 and `codep` a `uint32_t` |
| Utf8.DecodeMatchesTable | cubebox/font.c:40-49 | the table lookups of `decode` agree with the range form `Decode` for every valid state and every byte |
| Utf8.Decode | cubebox/font.c:40-49 | from REJECT the state stays REJECT; from ACCEPT an ASCII byte is accepted as itself; bytes 80..C1 and F5..FF are rejected from ACCEPT |
| Utf8.Next | cubebox/font.c:326-329 | one byte of a text loop: the decoder advances, and the codepoints of the text so far grow by the codepoint the byte completes, if any |
| Utf8.ScanStopsAtNul | cubebox/font.c:326 | the text loops read nothing past the first NUL |
| Utf8.ScanAfterReject | cubebox/font.c:34 | once the decoder is in REJECT, the rest of the string yields no codepoint |
| Utf8.MalformedEndsString | cubebox/font.c:326-329 | if a NUL-free prefix drives the decoder into REJECT, nothing after it contributes a codepoint |
| Utf8.LoneFF | cubebox/font.c:32-33 | the string "\xFF" yields no codepoint and leaves the decoder in REJECT |
| Utf8.RejectsMalformed | cubebox/font.c:30-37 | stray continuation bytes, C0, C1, F5..FF, and the overlong, surrogate and too-large second bytes after E0, ED, F0 and F4 are rejected |
| Utf8.LeadByte | cubebox/font.c:30-33 | which lead bytes leave the decoder pending in which state, and the payload bits they leave in `codep` |
| Utf8.ContinuationByte | cubebox/font.c:34-37 | a byte that a pending decoder does not reject is a continuation byte: six bits are appended, one fewer byte is due, and states 4, 5, 6 and 8 narrow its range |
| Utf8.AtMostThreePending | cubebox/font.c:34-37 | no four bytes in a row keep the decoder pending |
| Utf8.DecodeEncoded | cubebox/font.c:40-49 | the RFC 3629 encoding of a scalar value keeps the decoder pending until its last byte, which returns it to ACCEPT holding the value |
| Utf8.RoundTrip | cubebox/font.c:326-329 | the codepoints a text loop yields for the encoding of NUL-free scalar values are exactly those values |
| Utf8.AcceptedIsEncoding | cubebox/font.c:23-49 | the converse: a run of bytes from ACCEPT that stays pending until its last byte, which accepts, is the encoding of a scalar value, the one rebuilt |
| GlyphCache.IndexOf | cubebox/font.c:147-151 | the search of `loadGlyph`: the first record for the codepoint, or the count when there is none |
| GlyphCache.Pack | cubebox/font.c:176-179 | a packing attempt records one more request on that page and leaves every other page as it was. The placement is the packer's answer on that page's earlier requests |
| GlyphCache.PackGlyph | cubebox/font.c:167-183 | the page policy: pages only grow; the glyph lands on the last page; at most two pages are created, each with the next GL name |
| GlyphCache.PackGlyphPlacement | cubebox/font.c:179-183 | when the last page fits the glyph, no page is added and that answer is kept; otherwise one page is added and the placement is the packer's answer on the empty page. An empty atlas first gets one page, whose first answer is the empty packer's |
| GlyphCache.PackGlyphFresh | cubebox/font.c:123-143 | `createFontTexture` names new pages with fresh, distinct texture names |
| GlyphCache.LoadGlyph | cubebox/font.c:145-207 | a cache hit changes nothing and returns the cached record; a glyph index of 0 returns NULL and changes nothing; otherwise exactly one record is appended, sized like the bitmap box, with the scaled advance and offsets, on the last page. Its atlas position, the new page list and the names counter are those of the packing policy for the bitmap's size |
| GlyphCache.LoadGlyphFinds | cubebox/font.c:156-160 | `loadGlyph` returns a record exactly when the face has a glyph for the codepoint, and the record's advance is the face's scaled advance |
| GlyphCache.LoadGlyphKeepsFromFace | cubebox/font.c:147-151 | the records stay one per codepoint and agree with the face |
| GlyphCache.LoadGlyphKeepsOnPages | cubebox/font.c:186-196 | every record keeps pointing at an existing page and carries that page's texture |
| GlyphCache.LoadGlyphKeepsFresh | cubebox/font.c:167-183 | page textures stay distinct names already handed out |
| GlyphCache.LoadGlyphKeepsValid | cubebox/font.c:145-207 | `loadGlyph` keeps the cache invariant |
| GlyphCache.LoadGlyphTwice | cubebox/font.c:147-151 | loading a codepoint a second time is a hit: the same record, nothing changed |
| GlyphCache.GetQuad | cubebox/font.c:214-229 | the quad's corner is the pen plus the offsets, floored to whole pixels; its size is the glyph's; its UVs are the atlas rectangle over 512; the pen moves right by the advance and never down |
| GlyphCache.GlyphQuad | cubebox/font.c:343-353 | a glyph's quad is keyed by its page texture. It is an axis-aligned rectangle as wide and as high as the glyph's bitmap, and its UVs are the bitmap's rectangle on the page divided by the 512-pixel page size |
| FontRegistry.LoadFont | cubebox/font.c:84-104 | the new font's id is the previous slot count; it is live with an empty cache; earlier slots are unchanged, and the registry stays valid |
| FontRegistry.DestroyFont | cubebox/font.c:106-121 | -1 and a destroyed slot change nothing; otherwise the cache is released and the slot marked dead; exactly that font stops being live |
| FontRegistry.DestroyIdempotent | cubebox/font.c:107-109 | destroying twice is destroying once |
| FontRegistry.LiveSlotHoldsId | cubebox/font.c:89 | in a valid registry a live font sits in the slot its id names |
| FontRegistry.DestroyedStaysDead | cubebox/font.c:120 | a destroyed id never becomes live again, whatever is loaded later |
| Text.LoadAll | cubebox/font.c:331-334 | the lookups of a text keep the font's id and size, only grow its cache, and find at most one record per codepoint |
| Text.FindGlyph | cubebox/font.c:331-334 | the lookup in the loop extends the lookups so far by one codepoint, with its record if one is found |
| Text.Step | cubebox/font.c:326-334 | one turn of either text loop keeps the loop state: decoder, codepoints so far, cache and records found |
| Text.LoadAllKeepsValid | cubebox/font.c:331 | a sequence of lookups keeps the cache invariant |
| Text.LoadAllFinds | cubebox/font.c:331-334 | the lookups find a record for exactly the codepoints the face has a glyph for, in order, and leave each of them cached |
| Text.AllCachedPass | cubebox/font.c:147-151 | a pass over codepoints that are all cached changes nothing |
| Text.LoadAllAgain | cubebox/font.c:370 | measuring or drawing the same text a second time changes neither the font nor the GL names, and finds the same records |
| Text.WidthFromFace | cubebox/font.c:370-374 | the pen's travel over a text is the face's scaled advances of the codepoints with a glyph, whatever was cached before |
| Text.MeasureText | cubebox/font.c:361-375 | the loop of `cbTextWidth`: the cache after the text's lookups, and the sum of the advances of the glyphs found |
| Text.TextWidth | cubebox/font.c:359-377 | `cbTextWidth` stores the grown cache back in the registry and returns the advances truncated to int; with a valid cache the width is the face's |
| Text.TextQuads | cubebox/font.c:337-343 | one quad per glyph found, each keyed by its glyph's page texture |
| Text.TextQuadsAt | cubebox/font.c:343 | the k-th glyph is drawn at the start pen moved right by the advances of the glyphs before it |
| Text.DrawnSubmits | cubebox/font.c:336-353 | drawing glyph by glyph submits the text's quads in order |
| Text.DrawnLog | cubebox/font.c:356 | from an empty batch, drawing then flushing logs one draw call per maximal run of quads on one page texture |
| Text.PushGlyph | cubebox/font.c:336-353 | the loop body for a glyph found: batch its quad under its page texture, move the pen by its advance |
| Text.DrawGlyph | cubebox/font.c:343-353 | the body of the drawing loop extends the quads drawn so far by this glyph's, at the pen the earlier glyphs left |
| Text.RenderText | cubebox/font.c:317-357 | `cbRenderText` stores the grown cache and logs exactly the runs of the text's glyph quads that share a page texture, in text order |
| Text.OnePageOneCall | cubebox/font.c:337-340 | a text whose glyphs all sit on one atlas page is one draw call holding every glyph's quad |
| Text.MalformedEndsText | cubebox/font.c:326-334 | nothing after the byte that drove the decoder to REJECT is looked up or drawn |
| Image2D.PixelUv | cubebox/2d.c:53-56 | along a non-zero side of the texture, each UV coordinate is finite and times that side is the pixel coordinate. Along a side of 0, both coordinates are infinite or NaN |
| Image2D.PixelUvSpan | cubebox/2d.c:53-56 | along each non-zero side, the UV rectangle spans the pixel rectangle's extent as a fraction of the texture's size |
| Image2D.CreateSubimage | cubebox/2d.c:50-67 | accepts any texture. It takes the pixel rectangle's UVs: finite and scaled along non-zero sides, non-finite along a side of 0. The image is placed at the origin, unrotated, at pixel size, with its origin in the centre |
| Image2D.CreateImage | cubebox/2d.c:46-48 | the whole texture at the texture's size. Its UVs run 0..1 along each non-zero side and are NaN along a side of 0 |
| Image2D.RenderImage | cubebox/2d.c:225-258 | flushes exactly when the texture changes and a buffer is pending. After a texture change the buffer is just the image's six vertices; otherwise they are appended to the old buffer. The current texture becomes the image's |
| Image2D.Stop2D | cubebox/2d.c:277-280 | a pending buffer becomes one draw call with the current texture, and an empty buffer logs nothing. Afterwards the buffer is empty and the current texture is kept |
| Image2D.RenderImagesSubmits | cubebox/2d.c:225-258 | rendering images one by one submits their quads in order |
| Image2D.FrameLog | cubebox/2d.c:225-230 | from an empty buffer, rendering images and stopping logs one draw call per maximal run of images sharing a texture |
| Sprite.FrameTimeFor | cubebox/2d.c:111 | `(float) 1 / framePerSecond`: a frame lasts 1/fps seconds, and a rate of 0 gives a frame time no elapsed time exceeds |
| Sprite.FrameUv | cubebox/2d.c:95-101 | the frame is row * columns + column under C division, the column is below the column count, and the UVs are those of that grid cell |
| Sprite.FrameCell | cubebox/2d.c:95-96 | a non-negative frame on a sheet of positive width lies in a real column whose right edge is inside the sheet |
| Sprite.FrameUvWidth | cubebox/2d.c:98-101 | whatever the frame, its UV rectangle is one frame wide. It is one frame high when the sheet's height is non-zero, and non-finite vertically when it is 0 |
| Sprite.SetFrame | cubebox/2d.c:93-102 | the UVs become the frame's and nothing else changes |
| Sprite.CreateSprite | cubebox/2d.c:69-91 | frame 0, at the origin, frame-sized, unrotated, centred, stopped, with no sequence. On a sheet of height 0, v0 is NaN and v1 is frameHeight / 0 |
| Sprite.UntilTerminator | cubebox/2d.c:115-118 | the frames before the first -1, a prefix of the list without -1 |
| Sprite.Play | cubebox/2d.c:104-119 | no-op while playing; otherwise plays from position 0 with a fresh clock, the rate's frame time and the frames up to -1 appended; the shown frame is unchanged. No other field changes: placement, texture and frame size are kept |
| Sprite.Stop | cubebox/2d.c:121-128 | no-op when stopped; otherwise stops and drops the sequence; the frame position and clock are kept, and no field other than `playing` and the sequence changes |
| Sprite.Update | cubebox/2d.c:130-150 | a stopped sprite is unchanged; the clock advances; past one frame time exactly one step is taken, to the next position or back to 0, where a non-looping animation stops; the shown frame is the sequence's at the new position. A sprite still playing keeps its sequence. Only the UVs, `playing`, the clock, the position and the sequence can change |
| Sprite.ZeroRateNeverSteps | cubebox/2d.c:134 | an animation played at 0 frames per second never steps |
| Sprite.AnimationKeepsValid | cubebox/2d.c:104-128 | playing and stopping keep the frame position inside the sequence, and a stopped sprite holds no sequence |
| Sprite.SpriteImage | cubebox/2d.c:261-273 | the image a sprite is drawn as carries the sprite's texture, UVs and placement |
| Sprite.RenderSprite | cubebox/2d.c:260-275 | rendering a sprite makes its texture current. It flushes exactly when the texture changes and a buffer is pending. After a change the buffer is just the sprite's six vertices; otherwise they are appended |
| Sprite.RenderSpriteSubmits | cubebox/2d.c:260-275 | drawing a sprite submits one quad: its texture, its placed corners and the UVs of its shown frame. After SetFrame these are that frame's UVs |
| Tiled.CreateTiledLayer | cubebox/tiled.c:8-19 | the dimensions, tile set and tile size as given, width * height unwritten slots, position at the origin |
| Tiled.FillAsWritten | cubebox/tiled.c:21-23 | the copy as written: the first tileWidth * tileHeight slots take the caller's ints and the rest keep what they held |
| Tiled.Fill | cubebox/tiled.h:12 | the corrected fill: every one of the width * height slots takes the caller's int at its index |
| Tiled.FillAgreesWhenCountsMatch | cubebox/tiled.c:22 | when a tile's pixel count equals the cell count, the copy as written equals the intended one |
| Tiled.FillAgreesOnlyWhenCountsMatch | cubebox/tiled.c:22 | on a fresh layer, the copy as written equals the intended one exactly when a tile's pixel count equals the cell count |
| Tiled.FillAsWrittenLeavesUnset | cubebox/tiled.c:22 | with more cells than a tile has pixels, the copy as written leaves cells unwritten |
| Tiled.FillInBoundsNeedsSmallTiles | cubebox/tiled.c:22 | the copy as written stays in bounds only when a tile has no more pixels than the map has cells |
| Tiled.SmallTilesLeaveCellsUnset | cubebox/tiled.c:22 | a 3 x 3 map with 2 x 2 tiles: the copy as written leaves five cells unset, the corrected fill none |
| Tiled.LargeTilesOverflow | cubebox/tiled.c:22 | a 2 x 2 map with 32 x 32 tiles: the copy as written moves 1024 ints into 4 slots |
| Tiled.CellIndex | cubebox/tiled.c:37 | `i + j * width` of a cell inside the map is a slot of the tile array |
| Tiled.CellIndexInverse | cubebox/tiled.c:37 | the cell is read back from its slot as remainder and quotient by the width |
| Tiled.CellIndexInjective | cubebox/tiled.c:37 | two cells share a slot only if they are the same cell |
| Tiled.TileSourceInside | cubebox/tiled.c:39-42 | a tile id below the number of whole tiles selects a rectangle inside the tile set |
| Tiled.TileSourceInjective | cubebox/tiled.c:39-42 | different non-negative tile ids select different rectangles |
| Tiled.TileImage | cubebox/tiled.c:37-44 | a cell draws its tile's rectangle of the tile set at the tile size, at (i * tileWidth, j * tileHeight) |
| Tiled.PositionIgnored | cubebox/tiled.c:43-44 | moving the layer does not move what is drawn |
| Tiled.VisitedCell | cubebox/tiled.c:35-36 | the k-th cell visited is (k / height, k % height), inside the map |
| Tiled.TileQuadsVisit | cubebox/tiled.c:35-45 | a layer submits width * height quads, the k-th being the tile image of the k-th cell visited |
| Tiled.TileQuadsTexture | cubebox/tiled.c:42 | every quad of a layer uses the tile set's texture |
| Tiled.RenderColumn | cubebox/tiled.c:36-46 | the inner loop submits the quads of one column, top to bottom |
| Tiled.RenderTiledLayer | cubebox/tiled.c:34-48 | `cbRenderTiledLayer` submits the layer's quads in visiting order |
| Tiled.LayerIsOneDrawCall | cubebox/tiled.c:34-48 | a non-empty layer drawn from an empty buffer and stopped is one draw call holding every cell's quad in visiting order |
| LinkedList.PathDistinct | cubebox/utils.c:64-70 | a list reaching NULL visits no node twice |
| LinkedList.SpineUnique | cubebox/utils.c:63-70 | a list in a heap has exactly one spine, so its elements are fixed by the heap and the header |
| LinkedList.NewList | cubebox/utils.c:51-57 | an empty list of the given element size, valid in any heap |
| LinkedList.Get | cubebox/utils.c:59-72 | `cbListGet` returns the at-th element |
| LinkedList.LinkFront | cubebox/utils.c:99-104 | a fresh node linked in front: the elements gain x at the front, no other memory changes |
| LinkedList.LinkAfter | cubebox/utils.c:106-108 | a fresh node linked after the (at-1)-th: x lands at position at, no other memory changes |
| LinkedList.UnlinkFront | cubebox/utils.c:151-157 | the first node unlinked and freed: the elements lose their first |
| LinkedList.UnlinkAfter | cubebox/utils.c:159-162 | the at-th node unlinked from the (at-1)-th and freed: the elements lose the at-th |
| LinkedList.Insert | cubebox/utils.c:74-109 | the elements become old[..at] + [x] + old[at..] with x a copy of elementSize ints; the length grows by one; no other memory changes |
| LinkedList.Append | cubebox/utils.c:111-113 | the element becomes the last |
| LinkedList.Prepend | cubebox/utils.c:115-117 | the element becomes the first |
| LinkedList.Remove | cubebox/utils.c:119-163 | the elements become old[..at] + old[at+1..]; that node is freed; removing the only element leaves `begin` NULL; no other memory changes |

## Left out

- OpenGL and the shaders. Texture uploads, buffer binding, `glDrawArrays`, the text colour uniform and the projection setup of `cbStart2DRenderer` and `cbStartFontRenderer` are left out. A flush is a log entry.
- The float geometry of `cbRenderImage` and `cbRenderText`. The matrix product of translation, rotation and scale, and the projection, become the parameter `place`. The text quads' corners are stated before projection. Floats are reals: rounding is not modelled, and `floorf` is `Floor`. Texture coordinates keep the non-finite results of a division by zero (`CArith.Float`), but no arithmetic is done on them.
- File I/O. This covers the font file read by `cbLoadFont`, `cbLoadTexture` and `cbFillTiledLayerFromCsv`. A loaded font is the `Face` passed alongside it, and a texture is its name and size.
- stb_rect_pack and stb_truetype are oracles. Their own algorithms are not modelled, and neither are the glyph bitmap upload of `loadGlyph` and the empty texture of `createFontTexture`.
- Freeing memory: `cbFreeList`, `cbDestroySprite`, `cbDestroyTiledLayer`, `cbDestroyTexture`, and the renderers' init and destroy functions. Removal frees the node in the list heap; nothing else models the allocator.
- `cbFontHeight`. It is a one-line accessor of the font size.
- Text.TextWidth: requires a live font id. The C indexes the font array without a check, so a dead or out-of-range id uses freed or foreign memory.
- Text.RenderText: requires a live font id, for the same reason. It also starts from an empty font buffer, which holds after every call because each call ends with a flush.
- Tiled.FillAsWritten: defined only when the copy stays inside the tile array and the caller's data. Outside those bounds the C writes or reads past an allocation, and `Tiled.LargeTilesOverflow` shows when that happens.
- Tiled.TileImage: the tile math assumes the layer is filled and the tile set has at least one whole tile across. Negative tile sizes and `int` overflow in `i * tileWidth` are not modelled.
- Sprite.SetFrame: requires a non-zero frame width and at least one whole frame across the sheet. Without them the C's integer `%` and `/` divide by zero, which is undefined. `Sprite.CreateSprite` inherits this. A sheet of height 0 is accepted and gives non-finite v coordinates.
- Sprite.Update: requires a frame grid and a non-empty sequence whenever a frame is shown. Without a frame grid, `cbSpriteSetFrame` divides by zero (`cubebox/2d.c:95-96`). With an empty sequence, as after playing the list `{-1}` with looping on, the first step reads `sequence[0]` through a NULL stretchy buffer (`cubebox/2d.c:147`).
- Sprite.CreateSprite: `looped` and `frameTime` are uninitialised in the C and only read while playing. The model starts them at `false` and `Never`.
- LinkedList.Get: the `return NULL` past the end is unreachable under the function's own assertion, so it is not modelled. The C returns a pointer into the node, through which callers can change the element in place. The model returns the element's value and does not model that aliasing.
- FontRegistry.DestroyFont: requires the id to be -1 or a slot index. The C indexes `fonts[id]` without a check (`cubebox/font.c:108`), so any other id reads outside the array.
- Tiled.CreateTiledLayer: takes the width and height as `nat`, where the C takes `int`. Negative dimensions, which `malloc(width * height * sizeof(int))` accepts when their product is positive, and `int` overflow of that product are not modelled.

## Findings

| source | as written | input that shows it | evidently intended | confidence | as-written member | corrected member |
|---|---|---|---|---|---|---|
| cubebox/tiled.c:22 | `cbFillTiledLayer` copies `tileWidth * tileHeight` ints into the tile array | a 3 x 3 layer with 2 x 2 tiles fills 4 of 9 cells; a 2 x 2 layer with 32 x 32 tiles writes 1024 ints into a 4-int array | copy `width * height` ints, one per cell (the array holds width * height ints, per `cubebox/tiled.h:12`) | high, not executed | Tiled.FillAsWritten, Tiled.SmallTilesLeaveCellsUnset, Tiled.LargeTilesOverflow | Tiled.Fill |
