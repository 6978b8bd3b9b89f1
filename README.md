# OpenFTGL core, modelled in Dafny

This project models the data-structure and byte-level core of OpenFTGL, a C
library that renders FreeType glyphs into OpenGL textures.

- **Texture atlas** (`src/texture-atlas.c`). A texture of `width x height`
  pixels of `depth` bytes, with a one-pixel free border. A skyline of nodes
  `(x, y, z)` records, column by column, the row from which the interior is
  still free.
  - `get_region` places a rectangle on the node with the lowest top and raises
    the skyline over it.
  - `set_region` copies pixel rows into the texture.
  - `clear` and `enlarge_texture` reset or grow the atlas.
- **Growable vector** (`src/vector.c`). An item buffer with `size` and
  `capacity`, on which the atlas nodes and the glyph index are built.
- **Font lookup structures** (`src/texture-font.c`).
  - A two-level glyph index: a vector of optional 256-slot pages, addressed
    by `cp >> 8` and `cp & 0xFF`. Each slot holds a chain of glyph records
    that ends in-band with `FTGL_GLYPH_END`.
  - A per-glyph kerning table of the same shape.
  - The UTF-8 helpers.
  - The padding and target-size arithmetic of `load_glyph_gi`.
  - The BGRA to RGBA swizzle `rol(bswap32(v), 24)`.
- **Legacy font** (`font.h`). A 23-bucket chained hash map from codepoints
  to glyphs, and the shelf cursor `tbox`/`tbox_yjump` that places glyph
  bitmaps in a 1024 x 1024 texture.
- **Log stack** (`src/log.c`). A 20-slot circular stack of messages of at
  most 255 characters. The model follows the `FTGL_DEBUG` build, which
  `include/log.h` selects.

Each imperative part of the source is a class whose methods follow the C code
step by step:

- the `Vectors.Vector` items are an `array`;
- the atlas texture is an `array<bv8>`;
- the glyph-map buckets are an `array` of chains;
- the log stack is an `array2<char>`.

Each method is proved against value-level definitions:

- `Skyline.Place` is one placement;
- `Pixels.Blit` is a rectangle copy;
- `TextureFont.FirstMatch` is a chain walk;
- `Log.PushModel` is one push.

Lemmas then state what those definitions guarantee. The pure parts (UTF-8
decoding, the swizzle, the padding arithmetic) are functions with lemmas
about them.

- **Allocation failures.** Each allocation that can fail is a boolean
  parameter. `false` plays the role of `malloc`, `calloc` or `realloc`
  returning NULL.
- **FreeType results.** Bitmap sizes, bearings and the outcome of
  `FT_Load_Char` are parameters.

Files:

- `wrappers.dfy`: `Option`, the C return codes, `uint32`.
- `vector.dfy`: `src/vector.c`.
- `skyline.dfy`: the skyline placement rule on values.
- `pixels.dfy`: texture bytes, the rectangle copy, and the enlarged texture.
- `texture_atlas.dfy`: `src/texture-atlas.c`.
- `utf8.dfy`: the UTF-8 helpers of `src/texture-font.c`.
- `byte_order.dfy`: the `rol`/`bswap32` swizzle.
- `texture_font.dfy`: the glyph and kerning index and the padding block.
- `glyph_map.dfy`: the glyph map and cursor of `font.h`.
- `log.dfy`: `src/log.c`.

## Model

| member | source | states |
|---|---|---|
| Vectors.Vector.constructor | src/vector.c:13-16 | a new vector is empty, with one zeroed slot of storage |
| Vectors.Vector.Get | src/vector.c:41-50 | the item returned is the item at that index of the vector's contents |
| Vectors.Vector.Set | src/vector.c:166-177 | only slot `i` of the storage changes, and it now holds the new item |
| Vectors.Vector.Reserve | src/vector.c:101-124 | the capacity becomes `max(capacity, n)`, items are kept and new slots are zero; a failed reallocation returns MemoryError and changes nothing |
| Vectors.Vector.Shrink | src/vector.c:136-153 | the capacity becomes the size with the items kept; a failed reallocation returns MemoryError and changes nothing |
| Vectors.Vector.Clear | src/vector.c:156-163 | the used slots are zeroed, the size is 0, and the capacity and the slots past the old size are unchanged |
| Vectors.Vector.EraseRange | src/vector.c:191-206 | the contents lose exactly the items in `[first, last)`, the rest keep their order, and the storage past the moved block is untouched |
| Vectors.Vector.Erase | src/vector.c:180-188 | the contents lose exactly item `i` |
| Vectors.Vector.ShiftUp | src/vector.c:263-267 | the `memmove` of insert moves items `[i, size)` up one slot and leaves the other slots as they were |
| Vectors.Vector.ShiftThenSet | src/vector.c:263-270 | shifting up and then writing slot `i` is the insertion of the item at `i` |
| Vectors.Vector.InsertAt | src/vector.c:263-271 | with room for one more item, the contents become prefix, new item, then the old suffix |
| Vectors.Vector.Insert | src/vector.c:246-272 | a full vector grows to `InsertGrowth(capacity)`, which is `max(1, 2 * capacity)`, and the contents become prefix, new item, then the old suffix; a failed growth returns MemoryError and changes nothing |
| Vectors.Vector.PushBack | src/vector.c:209-213 | push_back is insert at the end, with the same growth to `max(1, 2 * capacity)`: the contents gain the item as their last element |
| Vectors.Vector.PopBack | src/vector.c:216-223 | the contents lose their last item and the storage is untouched |
| Vectors.Vector.Resize | src/vector.c:226-243 | the size becomes `n`; past the capacity the storage first grows to `n` zeroed slots; a failed growth returns MemoryError and changes nothing |
| Vectors.Vector.Contains | src/vector.c:65-80 | the result is true exactly when some used item compares equal under `cmp` |
| Vectors.InsertGrowthAsWritten | src/vector.c:257-258 | the capacity a full vector asks `reserve` for, as written: twice the old capacity |
| Vectors.InsertCapacityAsWritten | src/vector.c:257-262 | the capacity after insert's growth step as written: a full vector gets `max(capacity, 2 * capacity)`, since `reserve` never lowers it, and a vector with room keeps its capacity |
| Vectors.InsertAsWrittenRoom | src/vector.c:257-262 | as written, insert's growth step leaves room for the new item exactly when the capacity is positive |
| Vectors.InsertAfterEmptyShrinkHasNoRoom | src/vector.c:257-262 | the failing case: a vector shrunk to capacity 0 gets no room from insert |
| Vectors.InsertGrowth | src/vector.c:257-261 | the corrected growth always exceeds the old capacity, and equals doubling whenever the capacity is positive |
| Skyline.FitScan | src/texture-atlas.c:62-77 | the width loop of fit: walk the nodes while columns are left, keep the highest node top, give -1 once `y + height > height - 1` |
| Skyline.Fit | src/texture-atlas.c:39-78 | fit at node `i`: -1 when `x + width > width - 1`, otherwise the width loop started at the node's own height |
| Skyline.ScanBest | src/texture-atlas.c:183-200 | the candidate loop over the first `n` nodes, from the `UINT_MAX` record: a fitting node replaces the best on a lower top, or on an equal top with a positive width below the best width |
| Skyline.Clip | src/texture-atlas.c:227-244 | the shrinking loop: a node starting left of the inserted node's right edge is cut to start there and dropped when no width is left; the first node that keeps a width, or starts at or past the edge, ends the loop |
| Skyline.MergeAt | src/texture-atlas.c:93-96 | one fuse: node `i` takes the width of node `i + 1`, which is removed |
| Skyline.MergeFrom | src/texture-atlas.c:90-98 | the merge loop from index `i`: fuse while the next node has the same height, which is what `--i` repeats, otherwise move on |
| Skyline.Merge | src/texture-atlas.c:81-99 | merge: the merge loop from index 0 |
| Skyline.Raise | src/texture-atlas.c:210-244 | the node `(x, y + h, w)` inserted at the chosen index, with the nodes from that index on clipped at `x + w` |
| Skyline.Place | src/texture-atlas.c:169-249 | get_region when every allocation succeeds: no candidate gives `(-1, -1, 0, 0)` and the old nodes; otherwise the region at the chosen corner and the merged, raised node list |
| Skyline.FitScanSky | src/texture-atlas.c:62-77 | the width loop of fit fails exactly when some spanned column leaves no room below the top border; otherwise it returns the maximum skyline height over the span |
| Skyline.FitSky | src/texture-atlas.c:39-78 | fit accepts a node exactly when the rectangle meets neither the right border nor the top border, and then returns the maximum skyline height over the rectangle's columns |
| Skyline.ScanBestChoice | src/texture-atlas.c:183-200 | the scan finds none exactly when no node fits; otherwise it picks a fitting node with the lowest top, the narrowest among equal tops, and the earliest among those |
| Skyline.ScanBestNone | src/texture-atlas.c:184-208 | no candidate is found exactly when no node fits, and the record is then still the initial one |
| Skyline.ScanBestLowest | src/texture-atlas.c:191-194 | no fitting node has a lower top than the chosen one |
| Skyline.ScanBestTies | src/texture-atlas.c:191-192 | among fitting nodes with the same top, the chosen one is strictly narrower than earlier ones and no wider than later ones |
| Skyline.TopsBelowMaxOn | src/texture-atlas.c:184-186 | on atlases of at most `UINT_MAX` rows, every fitting node's top is below the `UINT_MAX` start value, and fit fails only with -1 |
| Skyline.ClipTiles | src/texture-atlas.c:227-244 | the clipping loop turns a tiling of the nodes behind the inserted one into a tiling that starts at its right edge |
| Skyline.ClipSky | src/texture-atlas.c:227-244 | clipping keeps the skyline right of the inserted node |
| Skyline.MergeAtKeeps | src/texture-atlas.c:93-96 | fusing two equal neighbours keeps the tiling, the positive widths, the bounds and the skyline at every column |
| Skyline.MergeKeeps | src/texture-atlas.c:81-99 | merge keeps the node-list invariant and the skyline, and afterwards no two neighbours have the same height |
| Skyline.RaiseValid | src/texture-atlas.c:218-244 | after the raised node is inserted and the rest clipped, the list is valid again; the rectangle is inside the border at the chosen corner |
| Skyline.RaiseSky | src/texture-atlas.c:218-244 | before merging, the skyline over the rectangle's columns is its top, and unchanged everywhere else |
| Skyline.PlaceFails | src/texture-atlas.c:202-208 | get_region fails exactly when every node would cross the right or the top border, and the node list is then unchanged |
| Skyline.PlaceRegion | src/texture-atlas.c:183-199 | the region starts at the chosen node, at the maximum skyline height over its columns; it is inside the border and no fitting node offers a lower row |
| Skyline.PlaceSkyline | src/texture-atlas.c:218-245 | after a placement the nodes are valid with no equal neighbours; the skyline is raised to the region's top over its columns and unchanged elsewhere |
| Skyline.PlaceValid | src/texture-atlas.c:218-245 | after a placement the node list is valid and has no equal neighbours |
| Skyline.PlaceSky | src/texture-atlas.c:218-245 | after a placement the skyline is raised to the region's top over its columns and unchanged elsewhere |
| Skyline.PlaceDisjoint | src/texture-atlas.c:169-249 | a new region overlaps no region lying under the old skyline, and all of them lie under the new one |
| Skyline.StaysApart | src/texture-atlas.c:218-220 | a region that sits on the old skyline shares no pixel with a region below it |
| Skyline.DisjointNoCommonPixel | src/texture-atlas.c:218-220 | the disjointness of two regions is exactly the absence of a common pixel |
| Skyline.InitialSkyline | src/texture-atlas.c:296 | the single node `(1, 1, W - 2)` is a valid skyline |
| Skyline.Widen | src/texture-atlas.c:336-349 | appending the node `(W - 1, 1, wn - W)` gives a valid skyline for the wider atlas and keeps the old columns' heights |
| Skyline.FirstPlacement | src/texture-atlas.c:9-24 | the special 5 x 5 region of a new atlas goes to `(1, 1)` exactly when the atlas is at least 7 x 7, and otherwise none is found |
| Skyline.ExampleStep1 | src/texture-atlas.c:169-249 | on a cleared 64 x 64 atlas, `(10, 10)` goes to `(1, 1)` |
| Skyline.ExampleStep2 | src/texture-atlas.c:58-77 | then `(60, 10)` fits at `(1, 11)`, because `1 + 60 <= 63` |
| Skyline.ExampleStep3 | src/texture-atlas.c:169-249 | then `(50, 10)` goes to `(1, 21)` |
| Skyline.ExampleStep4 | src/texture-atlas.c:169-249 | then `(10, 10)` takes the lower step at `(51, 21)`, and the two tops of 31 are merged |
| Skyline.ExampleSkipStep | src/texture-atlas.c:169-249 | without the 60-wide request, `(50, 10)` goes to `(11, 1)` |
| Skyline.ExampleSkipNext | src/texture-atlas.c:169-249 | and the next `(10, 10)` then goes to `(1, 11)` |
| Pixels.Splice | src/texture-atlas.c:278-279 | a `memcpy` changes exactly the bytes of the destination range, to the source bytes |
| Pixels.BlitPixel | src/texture-atlas.c:277-280 | after the row copy, a byte inside the rectangle holds the source byte at `row * stride + column`, and every other byte is unchanged |
| Pixels.EnlargedIs | src/texture-atlas.c:351-354 | the enlarged texture is the copy of the old interior rows, read `W * depth` bytes apart from pixel `(1, 1)` on, into a zeroed texture |
| Pixels.MovedInterior | src/texture-atlas.c:320-356 | in the enlarged texture, an old interior pixel keeps its row and column and every other byte is zero |
| Pixels.InteriorSource | src/texture-atlas.c:353-354 | the source of that copy lies inside the old texture |
| TextureAtlas.PlacePacked | src/texture-atlas.c:169-249 | a successful placement keeps the packing invariant with the new region added: a valid skyline; regions inside the border, below the skyline and pairwise apart; `used` their area |
| TextureAtlas.InitialPacked | src/texture-atlas.c:296-304 | the cleared state satisfies the packing invariant |
| TextureAtlas.WidenPacked | src/texture-atlas.c:336-349 | enlarging keeps the packing invariant for the new size |
| TextureAtlas.Memcpy | src/texture-atlas.c:278-279 | the copy writes the source range into the destination range and nothing else |
| TextureAtlas.TrimHead | src/texture-atlas.c:228-243 | one round of the shrinking loop is one step of the clipping rule |
| TextureAtlas.CutHead | src/texture-atlas.c:231-240 | the node is cut back to the previous node's right edge, and erased when no width is left |
| TextureAtlas.Atlas.constructor | src/texture-atlas.c:117-137 | a new atlas has the single node `(1, 1, width - 2)`, nothing used, a zeroed texture and the modified flag set |
| TextureAtlas.Atlas.Fit | src/texture-atlas.c:39-78 | the method computes the fit rule (see Skyline.FitSky) |
| TextureAtlas.Atlas.FuseNext | src/texture-atlas.c:93-96 | node `i` absorbs the width of node `i + 1`, which is erased |
| TextureAtlas.Atlas.Merge | src/texture-atlas.c:81-99 | the loop with its `--i` computes the merge rule (see Skyline.MergeKeeps) |
| TextureAtlas.Atlas.FindBest | src/texture-atlas.c:183-200 | the candidate loop computes the best-node rule (see Skyline.ScanBestChoice) |
| TextureAtlas.Atlas.ClipFrom | src/texture-atlas.c:227-244 | the shrinking loop computes the clipping rule on the nodes behind the inserted one |
| TextureAtlas.Atlas.RaiseAt | src/texture-atlas.c:210-245 | the insert, clip and merge compute `Merge(Raise(...))`; a failed vector growth returns MemoryError and leaves the nodes unchanged |
| TextureAtlas.Atlas.ClipAndMerge | src/texture-atlas.c:227-245 | after the insertion, clipping and merging give `Merge(Raise(...))` |
| TextureAtlas.Atlas.GetRegion | src/texture-atlas.c:169-249 | the result and the new node list are those of `Skyline.Place`; on success `used` grows by `w * h`, modified is set and the region is recorded; on failure the result is `(-1, -1, 0, 0)` and nothing changes; the atlas invariant is kept |
| TextureAtlas.Atlas.Record | src/texture-atlas.c:246-248 | `used` grows by the area and the invariant holds with the region added |
| TextureAtlas.Atlas.SetRegion | src/texture-atlas.c:252-283 | the texture becomes the row copy `Blit` (see Pixels.BlitPixel), and modified is set |
| TextureAtlas.Atlas.CopyRow | src/texture-atlas.c:277-280 | one `memcpy` extends the copy of the first `i` rows to `i + 1` rows |
| TextureAtlas.Atlas.Clear | src/texture-atlas.c:286-305 | the node list is the single node `(1, 1, width - 2)`, `used` is 0, the texture is all zero, and the result is NoError |
| TextureAtlas.Atlas.EnlargeTexture | src/texture-atlas.c:308-357 | on success: the new size; the old interior moves to the same place in a zeroed texture; the node `(W - 1, 1, wn - W)` is appended only when the width grew. On either allocation failure: MemoryError, with the texture, the size and the nodes restored |
| TextureAtlas.Atlas.WidenNodes | src/texture-atlas.c:336-349 | when the atlas grows wider, the new columns get a node at height 1; a failed push changes nothing |
| TextureAtlas.Atlas.Install | src/texture-atlas.c:320-335 | the zeroed larger texture replaces the old one and receives its interior |
| TextureAtlas.Atlas.MoveInterior | src/texture-atlas.c:351-355 | the single set_region call of enlarge_texture produces the enlarged texture |
| TextureAtlas.Atlas.Special | src/texture-atlas.c:10-36 | a 5 x 5 region is taken and a 4 x 4 white square painted into it; AtlasFullError when there is no region; a failed glyph allocation still leaves the region taken |
| TextureAtlas.Create | src/texture-atlas.c:102-151 | an atlas exists exactly when every allocation succeeds and the atlas is at least 7 x 7; it then holds the special region at `(1, 1)` and the square |
| Utf8.StepLen | src/texture-font.c:617-637 | the length utf8_surrogate_len gives a non-NULL string: 1 below 0x80, otherwise the leading 1-bits of the first byte, between 1 and 8 |
| Utf8.Utf8Count | src/texture-font.c:639-652 | the number of steps of that length utf8_strlen takes from byte `i` before it stands on a NUL, where bytes past the buffer read as NUL |
| Utf8.LeadingOnes | src/texture-font.c:631-634 | the count of leading 1-bits is 0 exactly when the top bit is clear |
| Utf8.LeadingOnesShift | src/texture-font.c:631-634 | one `test_char <<= 1` step removes one leading 1-bit |
| Utf8.SurrogateLen | src/texture-font.c:617-637 | NULL gives 0; a byte below 0x80 gives 1; any other lead byte gives the count of its leading 1-bits |
| Utf8.Strlen | src/texture-font.c:639-652 | the loop counts the steps of `utf8_surrogate_len` that reach the terminating NUL |
| Utf8.Utf8ToUtf32 | src/texture-font.c:654-659 | NULL decodes to `0xFFFFFFFF` |
| Utf8.InvalidLeadIsReplacement | src/texture-font.c:689 | a continuation byte or a byte from `0xFC` up in lead position decodes to `0xFFFD` |
| Utf8.LeadMasksArePayload | src/texture-font.c:665-679 | for each matched lead form, the mask the decoder applies keeps exactly the payload bits of section 3 of RFC 3629 |
| Utf8.StepLenOfLead | src/texture-font.c:628-634 | the lead bytes of 2-, 3-, 4- and 5-byte forms give those step lengths |
| Utf8.DecodeOne | src/texture-font.c:661-663 | ASCII passes through |
| Utf8.DecodeTwo | src/texture-font.c:665-667 | the 2-byte encoding of `0x80..0x7FF` decodes back to the codepoint |
| Utf8.DecodeThree | src/texture-font.c:669-672 | the 3-byte encoding of `0x800..0xFFFF` decodes back to the codepoint |
| Utf8.DecodeFour | src/texture-font.c:674-679 | the 4-byte encoding of `0x10000..0x10FFFF` decodes back to the codepoint |
| Utf8.DecodeEncode | src/texture-font.c:661-679 | decoding the RFC 3629 encoding of any Unicode scalar value gives it back, whatever follows it |
| Utf8.DecodeEncode5 | src/texture-font.c:681-687 | the obsolete 5-byte form of section 2 of RFC 2279 decodes back too |
| Utf8.StepLenEncode | src/texture-font.c:626-636 | the step length of an encoding's lead byte is the encoding's length, and it is NUL only for codepoint 0 |
| Utf8.CountShift | src/texture-font.c:645-648 | counting from inside a buffer depends only on what follows |
| Utf8.CountEncodeAll | src/texture-font.c:639-652 | the length of the concatenated encodings of `n` non-zero codepoints is `n` |
| ByteOrder.Rol | src/texture-font.c:40-43 | rotate a 32-bit word left by `x` bits, for `0 < x < 32` |
| ByteOrder.Bswap32 | src/texture-font.c:33-37 | the fallback byte swap: byte 3 to byte 0, byte 2 to byte 1, byte 1 to byte 2, byte 0 to byte 3 |
| ByteOrder.SwizzleLE | src/texture-font.c:1564-1565 | the little-endian pixel conversion `rol(bswap32(v), 24)` |
| ByteOrder.SwizzleBE | src/texture-font.c:1562-1563 | the big-endian pixel conversion `rol(bswap32(v), 8)` |
| ByteOrder.Bswap32Reverses | src/texture-font.c:33-37 | the fallback `bswap32` reverses the byte order |
| ByteOrder.Bswap32Involution | src/texture-font.c:33-37 | `bswap32` undoes itself |
| ByteOrder.RolTurn | src/texture-font.c:40-43 | rotating by 8 and then by 24, in either order, is the identity |
| ByteOrder.LERoundTrip | src/texture-font.c:1561-1567 | storing the word read from four bytes gives the bytes back |
| ByteOrder.SwizzleLEIsBgraToRgba | src/texture-font.c:1561-1567 | on a little-endian machine, the bytes B, G, R, A are stored back as R, G, B, A |
| ByteOrder.SwizzleBEIsBgraToRgba | src/texture-font.c:1561-1567 | on a big-endian machine, the bytes B, G, R, A are stored back as R, G, B, A |
| TextureFont.PageOf | src/texture-font.c:1165 | the page of a codepoint, `cp >> 8` |
| TextureFont.SlotOf | src/texture-font.c:1166 | the slot of a codepoint in its page, `cp & 0xFF` |
| TextureFont.FirstMatch | src/texture-font.c:1256-1263 | the chain walk: the first record with the font's render mode and outline thickness, or NULL at a non-matching record that does not continue the chain |
| TextureFont.SplitJoins | src/texture-font.c:1165-1166 | `page * 256 + slot` is the codepoint, so distinct codepoints never share a slot |
| TextureFont.TwoLevel.constructor | src/texture-font.c:816 | a fresh table reads `empty` for every codepoint |
| TextureFont.TwoLevel.Reach | src/texture-font.c:1169-1172 | the page index becomes in range unless the resize fails; it fails only when growth was needed; no slot changes |
| TextureFont.TwoLevel.Page | src/texture-font.c:1174-1184 | a missing page is allocated with all slots empty unless the `calloc` fails; no value changes |
| TextureFont.TwoLevel.Write | src/texture-font.c:1285 | the slot of the codepoint holds the value, and no other codepoint's slot changes |
| TextureFont.TwoLevel.Read | src/texture-font.c:1245-1254 | the value stored for the codepoint is read, or `empty` for an out-of-range or missing page |
| TextureFont.Appended | src/texture-font.c:1190-1193 | the chain grows by the new record at the end, and earlier records lose only their END marker |
| TextureFont.AppendedShape | src/texture-font.c:1186-1194 | appending an END record keeps the shape "all CONT, then a final END" |
| TextureFont.FirstMatchNone | src/texture-font.c:1256-1263 | on a well-shaped chain the walk returns NULL exactly when no record has the font's key |
| TextureFont.FirstMatchFound | src/texture-font.c:1256-1263 | otherwise it returns the first record with the key |
| TextureFont.FindAfterAppend | src/texture-font.c:1186-1194 | indexing a record does not change what the walk found before, apart from the END marker; if nothing was found, the new record is found exactly when it has the key |
| TextureFont.IndexFoundAsWritten | src/texture-font.c:1369-1372 | as written, the record that `find_glyph(font, "\0")` returns, when it is not last in codepoint 0's chain, is CONT. Copied behind a chain, as src/texture-font.c:1186-1194 does, it leaves a chain with no END record, so the chain loses its shape |
| TextureFont.FindEnd | src/texture-font.c:1187-1189 | the index the `glyphmode` loop stops at is that of the last record |
| TextureFont.GlyphIndex.constructor | src/texture-font.c:816 | a new font indexes no glyph |
| TextureFont.GlyphIndex.IndexGlyph | src/texture-font.c:1160-1201 | for a record that ends its chain, as a freshly created glyph does: MemoryError exactly when a needed resize or page allocation fails, with every chain unchanged; otherwise the record is appended to its codepoint's chain, and no other chain changes |
| TextureFont.GlyphIndex.IndexFound | src/texture-font.c:1369-1372 | the corrected missing-glyph path: the record found for codepoint 0 is indexed marked END, whatever its mode. The failure cases are those of IndexGlyph; on success the chain gains that record at its end, no other chain changes, and a lookup with the record's key that found nothing before now finds it |
| TextureFont.GlyphIndex.Append | src/texture-font.c:1186-1198 | an empty slot takes the record; an occupied one gets it appended behind the chain |
| TextureFont.GlyphIndex.FindGlyphGi | src/texture-font.c:1238-1264 | the result is the chain walk of the codepoint: NULL for an out-of-range page, a missing page, an empty slot or no match (see FirstMatchNone and FirstMatchFound) |
| TextureFont.Kerning.constructor | src/texture-font.c:1789 | a new glyph's kerning is 0 against every codepoint |
| TextureFont.Kerning.IndexKerning | src/texture-font.c:1267-1286 | afterwards the kerning against the codepoint is the given value, and no other kerning changes |
| TextureFont.Kerning.GetKerning | src/texture-font.c:1735-1758 | a NULL string reads 0; otherwise the kerning recorded for the decoded codepoint is read, which is 0 where nothing was recorded |
| TextureFont.KerningOfEncoded | src/texture-font.c:1738-1757 | a lookup by the UTF-8 encoding of a codepoint reads that codepoint's kerning |
| TextureFont.GlyphPadding | src/texture-font.c:1514-1531 | the margins: right and bottom `p + 1`, left and top `p`, one more left and top for distance fields, where `p` is the font padding |
| TextureFont.SourceWidth | src/texture-font.c:1533 | the bitmap's width in pixels: a third of its byte width at depth 3, rounded down, otherwise the byte width |
| TextureFont.TargetSize | src/texture-font.c:1533-1537 | `tgt_w` and `tgt_h`: the source size plus the margins, modulo `SIZE_MAX + 1` |
| TextureFont.TargetSizeHasMargins | src/texture-font.c:1514-1537 | for a font padding in `[0, INT_MAX)` the `size_t` sums do not wrap: the target is the source size plus the left and right margins (top and bottom alike), with at least one column to the right and one row below, and a margin on every side for distance fields |
| TextureFont.LcdSourceWidth | src/texture-font.c:1533 | a depth-3 bitmap is a third as wide, rounded down |
| TextureFont.NegativePaddingWraps | src/texture-font.c:1526-1537 | a font padding of -1 wraps the unsigned target width of an empty bitmap to `SIZE_MAX` |
| LegacyFont.Hash | font.h:320 | the bucket of a codepoint, `codepoint % 23` |
| LegacyFont.Wrapped | font.h:524-528 | the cursor after the wrap test: when `x + w >= 1024`, the next row at `y + yjump + 5` from `x = 5` with row height 0, otherwise unchanged |
| LegacyFont.Placement | font.h:524-535 | the box `(x, y, w, rows)` at the wrapped cursor, or NULL when `y + rows >= 1024` |
| LegacyFont.Advanced | font.h:524-556 | the cursor after a bitmap is placed: the wrapped cursor moved on by `w + 5`, with row height `max(yjump, rows)` |
| LegacyFont.Prepend | font.h:349-355 | prepending an absent codepoint keeps the bucket free of duplicates and adds just that codepoint |
| LegacyFont.GlyphMap.constructor | font.h:298-310 | the 23 buckets are empty and no codepoint is present |
| LegacyFont.GlyphMap.Find | font.h:312-330 | a glyph is found exactly when the codepoint is present; it carries that codepoint and comes from the bucket `codepoint % 23` |
| LegacyFont.GlyphMap.Insert | font.h:332-357 | a present codepoint gives NoError with nothing changed. An absent one gets a new node at the head of its bucket, or MemoryError with nothing changed. No other codepoint's presence changes |
| LegacyFont.GlyphMap.Free | font.h:359-378 | every bucket is empty afterwards |
| LegacyFont.FoundIsInserted | font.h:543 | the glyph found after an insert is the inserted one, with its box, offsets and advances |
| LegacyFont.WrapKeepsShelved | font.h:524-528 | opening a new row keeps the placed boxes apart from the cursor's row |
| LegacyFont.PlaceKeepsShelved | font.h:534-556 | a new box overlaps no earlier box, and the moved cursor keeps them all behind it |
| LegacyFont.PlacementInAtlas | font.h:524-535 | a placed box is inside the top and left gaps and above the bottom edge, and left of the right edge when the bitmap is narrower than 1019 |
| LegacyFont.WideBitmapOverruns | font.h:524-535 | a bitmap 1019 pixels wide starts at the gap and runs past the right edge |
| LegacyFont.Font.constructor | font.h:412-415 | the cursor starts at `(5, 5)` with row height 0 and the map is empty |
| LegacyFont.Font.LoadCodepoint | font.h:505-561 | a present codepoint is returned with the cursor and map unchanged; a failed FreeType load gives NULL with nothing changed; otherwise the glyph is placed as PlaceNew states |
| LegacyFont.Font.PlaceNew | font.h:522-556 | no room below (`y + rows >= 1024`) or a failed insert gives NULL with only the wrapped cursor kept. On success the glyph is inserted with box `(x, y, w, rows)`, `x` moves on by `w + 5` and the row height becomes `max(yjump, rows)` |
| LegacyFont.Font.WrapCursor | font.h:524-528 | when `x + w >= 1024`: `y += yjump + 5`, `x = 5` and `yjump = 0` |
| LegacyFont.Font.Commit | font.h:534-556 | the inserted glyph carries the box at the cursor, and the cursor moves past it |
| Log.Truncated | src/log.c:28-30 | what a push stores of a message: the characters before its first NUL, cut to 255 |
| Log.TruncatedFits | src/log.c:28-30 | a stored message has at most 255 characters, contains no NUL and is a prefix of the message; a short NUL-free message is stored whole |
| Log.CopyStop | src/log.c:28 | the copy loop stops exactly at the first NUL or at the 255th character |
| Log.CStringOfTerminated | src/log.c:30 | the terminating NUL written after the copy makes the slot read back as the stored message |
| Log.PushModel | src/log.c:26-31 | after a push, the number of retained messages grows by one unless it is already 20 |
| Log.PushThenPop | src/log.c:26-46 | a pop after a push returns the pushed message as stored; the rest is what was retained before, less the oldest message when the stack was full |
| Log.Next | src/log.c:31 | `ptr` moves on modulo 20 and stays within `[0, 20)` |
| Log.Prev | src/log.c:43-45 | `ptr` steps back with wrap-around and stays within `[0, 20)` |
| Log.PushHolds | src/log.c:26-31 | writing the message at `ptr` and moving on keeps every earlier message one place further back; when full, the oldest message's slot is the one overwritten |
| Log.PopHolds | src/log.c:41-46 | moving `ptr` back finds the newest message in that slot and keeps the others |
| Log.LogStack.constructor | src/log.c:4-6 | the zero-initialised stack is empty |
| Log.LogStack.Empty | src/log.c:8-12 | true exactly when no message is retained |
| Log.LogStack.Full | src/log.c:14-18 | true exactly when 20 messages are retained |
| Log.LogStack.Push | src/log.c:22-35 | the size saturates at 20, `ptr` moves on modulo 20, and the retained messages become `PushModel` (see PushThenPop and PushHolds) |
| Log.LogStack.CopyMessage | src/log.c:28-30 | slot `ptr` starts with the stored message and a NUL, and no other slot changes |
| Log.LogStack.CopyChars | src/log.c:28-30 | the loop copies the stored message, writes a NUL after it, and touches no other byte |
| Log.LogStack.Pop | src/log.c:37-52 | an empty stack gives NULL and changes nothing. Otherwise `ptr` steps back and the returned slot holds the newest message; the size drops by one and the others are retained |

## Left out

- The signed-distance-field pipeline, FreeType, OpenGL, SDL and every floating-point computation are not modelled. This covers texture coordinates, advances, the F26Dot6 conversions and the grayscale conversion. FreeType's bitmap sizes, bearings and load outcome are parameters of the model.
- `insert_data`, `push_back_data` and `sort` of the vector are not modelled: the first two are defective as written, and the third calls `qsort`. `front`, `back`, `empty`, `size`, `capacity`, `create`'s allocation failure and `free` of the vector are not modelled separately. `Get` covers the accessors, and the capacity is the array length.
- Allocations that can fail are boolean parameters.
  - They cover the vector's `realloc`, the page and node allocations of the atlas and the glyph index, and the nodes of the glyph map.
  - A vector is not freed; Dafny's heap stands in for it.
  - `free` and memory reuse are not modelled.
- The vector's items are values of a type with a designated all-zero item. `memset`, `memcpy` and `memmove` on raw bytes are modelled at item granularity.
- Vectors.Vector.Insert and Vectors.Vector.PushBack: grow a full vector of capacity 0 to one slot. The source asks `reserve` for `2 * capacity`, which is 0, and then writes the item outside its storage. The model uses the corrected growth (see the Findings table).
- Vectors.Vector.Shrink: a failed reallocation is modelled as changing nothing. Where `realloc(items, 0)` on an empty vector frees the block and returns NULL, the source returns MemoryError with `items` already freed and the capacity kept (src/vector.c:141-147). The next insert then writes to freed storage, which the model does not capture.
- TextureAtlas.Atlas.GetRegion: requires `w > 0`.
  - A zero-width request would insert a node of width 0, which the node-list invariant excludes.
  - Every caller whose font padding is non-negative asks for at least one column. A negative font padding can make the request 0 columns wide (see TextureFont.NegativePaddingWraps).
- TextureAtlas.Atlas.EnlargeTexture: installs the new texture and size after pushing the node. The source installs them first and puts them back when the push fails. Both orders leave the same state.
- TextureAtlas.Create: requires `w >= 3` and `h >= 3`, because the node-list invariant needs a positive node width `w - 2`. For a width or height of 1 or 2, the source's `create` finds no special region and returns NULL: `fit` fails at the right border (src/texture-atlas.c:58) or the top border (src/texture-atlas.c:71). The model does not state that case.
- The `used` counter is an unbounded integer, and atlas coordinates are not checked against `int` overflow.
- TextureFont.GlyphIndex.IndexGlyph: requires `glyph.mode == GlyphEnd`. That holds for the freshly created glyph that `load_glyph_gi` indexes (src/texture-font.c:1646 and 1651), since glyphs are created with `FTGL_GLYPH_END` (src/texture-font.c:1778). It does not hold for the record of the missing-glyph path (src/texture-font.c:1369-1372). That path is modelled by TextureFont.GlyphIndex.IndexFound, which marks the record END (see the Findings table).
- TextureFont.GlyphIndex.IndexFound: where the slot is empty, the source stores a pointer into codepoint 0's chain, so the new slot reads on into the records after it. The model stores one record and does not capture that aliasing.
- TextureFont.GlyphIndex.IndexGlyph: the `realloc` of an occupied chain is taken to succeed. The source does not check it.
- Glyph chains, pages and glyph-map buckets are values.
  - A chain slot holds the chain's records, so the aliasing between an indexed glyph and the caller's copy is not modelled. The `memcpy` copies the record.
  - A bucket's linked list is the sequence of its glyphs, head first, so node identity is not modelled.
- `find_glyph` and `get_glyph`, which decode UTF-8 and call into FreeType on a miss, are not modelled beyond FindGlyphGi and the decoder.
- TextureFont.Kerning.IndexKerning: the resize and `calloc` are taken to succeed. The source ignores their results.
- The outline thickness is a `real` compared only for equality, so NaN and negative zero are not modelled.
- Codepoints in the glyph and kerning index are integers below 2^32. The model computes `cp >> 8` and `cp & 0xFF` as `cp / 256` and `cp % 256`.
- The UTF-8 decoder reads bytes past the end of the buffer as 0.
  - The C code works on a `char`, which is signed on common platforms. The model reads unsigned bytes, which gives the same masks and shifts in every case the code distinguishes.
  - Utf8.Utf8ToUtf32: its own ensures only fixes the NULL case. Its meaning is stated by the Decode and Invalid lemmas.
- The `int` value of `font->padding` is an unbounded integer.
  - TextureFont.TargetSizeHasMargins requires it to be non-negative and to fit an `int`.
  - What a negative padding does to the unsigned target size is shown by NegativePaddingWraps only.
- LegacyFont.PlacementInAtlas: a placed bitmap stays inside the texture only when it is narrower than 1019 pixels. A wider one overruns the right edge (WideBitmapOverruns), and the source does not check it.
- The cursor's `int` fields are unbounded integers. The GL upload of the bitmap is left out.
- The glyph map's `create` and `free` allocations, and `ftgl_glyph_free`, are not modelled.
- The log stack is an object instead of three static variables.
  - Log.LogStack.Pop returns the slot index instead of a pointer into the stack.
  - The `file` and `line` arguments of a push are unused in the source and left out.
  - The non-debug build, in which a push does nothing and a pop returns a constant string, is left out.
- A push followed by a pop restores `size` only when the stack was not full. On a full stack the oldest message is lost, so the size drops to 19. Log.PushThenPop states both cases.
- Log.LogStack.Push: a message is a sequence of characters, read as 0 past its end. So the model does not capture reading past an unterminated buffer.

## A worked example

On a cleared 64 x 64 atlas, whose single node is `(1, 1, 62)`, the code gives
this sequence of `get_region` results:

- `(10, 10)` goes to `(1, 1)`.
- `(60, 10)` goes to `(1, 11)`. `fit` rejects a node only when
  `x + width > width - 1`, and `1 + 60 = 61 <= 63`.
- `(50, 10)` goes to `(1, 21)`.
- `(10, 10)` goes to `(51, 21)`, and the two tops of 31 are merged.

Skyline.ExampleStep1 to Skyline.ExampleStep4 prove these results.
Skyline.ExampleSkipStep and Skyline.ExampleSkipNext prove the sequence
without the 60-wide request: after the first `(10, 10)`, `(50, 10)` goes to
`(11, 1)`, and the next `(10, 10)` goes to `(1, 11)`.

## Findings

| source | as written | input that shows it | evidently intended | confidence | as-written member | corrected member |
|---|---|---|---|---|---|---|
| src/vector.c:257-262 | a full vector is grown to `2 * capacity` | `shrink` on a new, empty vector leaves capacity 0, where `realloc(items, 0)` returns a non-NULL pointer (the C standard leaves this to the implementation); a `push_back` then asks `reserve` for 0 slots, which does nothing, and writes the item outside the storage | grow to at least one slot, e.g. `max(1, 2 * capacity)` | not executed | Vectors.InsertAfterEmptyShrinkHasNoRoom | Vectors.InsertGrowth |
| src/texture-font.c:1369-1372 | the record found for codepoint 0 is indexed as it is, with its own glyph mode | chain 0 is `[d1 (CONT), d2 (END)]`, the font's key is that of `d1`, and a missing codepoint whose slot holds a record of another key is loaded: the copy of `d1` ends that chain with CONT, and the next `index_glyph` or a lookup with a third key walks past the end of the array | index the record marked `FTGL_GLYPH_END` | not executed | TextureFont.IndexFoundAsWritten | TextureFont.GlyphIndex.IndexFound |
