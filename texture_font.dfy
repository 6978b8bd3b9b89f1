/**
 * The lookup structures of `ftgl_texture_font_t` and the glyph-size
 * arithmetic of `ftgl_texture_font_load_glyph_gi`.
 *
 * A codepoint `cp` is split into a page `cp >> 8` and a slot `cp & 0xFF`.
 * The font's `glyphs` vector holds, per page, a pointer to a `calloc`ed
 * page of 256 slots or NULL; a glyph's `kerning` vector has the same shape
 * with `float` slots.  A glyph slot holds a chain of glyph records: every
 * record but the last is marked `FTGL_GLYPH_CONT`, the last `FTGL_GLYPH_END`.
 */
module TextureFont {
  import opened Wrappers
  import opened Vectors
  import opened Utf8

  /** The page of a codepoint, `cp >> 8` of an unsigned value. */
  function PageOf(cp: uint32): nat
  {
    cp as int / 256
  }

  /** The slot of a codepoint in its page, `cp & 0xFF`. */
  function SlotOf(cp: uint32): nat
  {
    cp as int % 256
  }

  /** Page and slot together give back the codepoint, so no two codepoints share a slot. */
  lemma SplitJoins(cp: uint32, other: uint32)
    ensures PageOf(cp) * 256 + SlotOf(cp) == cp as int
    ensures SlotOf(cp) < 256 && PageOf(cp) < 0x100_0000
    ensures PageOf(cp) == PageOf(other) && SlotOf(cp) == SlotOf(other) ==> cp == other
  {
  }

  /**
   * A top-level vector of optional 256-entry pages.  `empty` is what a slot
   * holds when its page is missing and what a fresh page is filled with.
   */
  class TwoLevel<V(0)> {
    const pages: Vector<Option<seq<V>>>
    const empty: V

    ghost predicate Valid()
      reads pages, pages.items
    {
      && pages.Valid()
      && pages.zero == None
      && (forall k :: pages.size <= k < pages.items.Length ==> pages.items[k] == None)
      && (forall k :: 0 <= k < pages.items.Length && pages.items[k].Some? ==> |pages.items[k].value| == 256)
    }

    /** Page `i` is within the vector's size and allocated. */
    ghost predicate HasPage(i: nat)
      reads pages, pages.items
      requires Valid()
    {
      i < pages.size && pages.items[i].Some?
    }

    /** What the table holds for a codepoint. */
    ghost function At(cp: uint32): V
      reads pages, pages.items
      requires Valid()
    {
      if HasPage(PageOf(cp)) then pages.items[PageOf(cp)].value[SlotOf(cp)] else empty
    }

    /** A fresh table: `ftgl_vector_create` of the page pointers. */
    constructor (empty: V)
      ensures Valid() && fresh(pages) && fresh(pages.items)
      ensures this.empty == empty
      ensures forall cp :: At(cp) == empty
    {
      this.empty := empty;
      pages := new Vector(None);
    }

    /** Make page `i` an index of the vector, growing it to `i + 1` pages when it is shorter. */
    method Reach(i: nat, allocOk: bool) returns (ret: ReturnCode)
      requires Valid()
      modifies pages
      ensures Valid()
      ensures pages.items == old(pages.items) || fresh(pages.items)
      ensures ret == MemoryError <==> old(pages.size) <= i && old(pages.items.Length) < i + 1 && !allocOk
      ensures ret != MemoryError ==> ret == NoError && i < pages.size
      ensures pages.size >= old(pages.size)
      ensures forall k :: HasPage(k) == old(HasPage(k))
      ensures forall cp :: At(cp) == old(At(cp))
    {
      ret := NoError;
      if pages.size <= i {
        ret := pages.Resize(i + 1, allocOk);
      }
    }

    /** Allocate page `i` with 256 empty slots when it is missing. */
    method Page(i: nat, allocOk: bool) returns (ret: ReturnCode)
      requires Valid() && i < pages.size
      modifies pages.items
      ensures Valid()
      ensures ret == MemoryError <==> !old(HasPage(i)) && !allocOk
      ensures ret != MemoryError ==> ret == NoError && HasPage(i)
      ensures forall cp :: At(cp) == old(At(cp))
    {
      var page := pages.Get(i);
      ret := NoError;
      if page.None? {
        if !allocOk {
          return MemoryError;
        }
        pages.Set(i, Some(seq(256, _ => empty)));
      }
    }

    /** Store `v` in the slot of `cp`, whose page is allocated; no other slot changes. */
    method Write(cp: uint32, v: V)
      requires Valid() && HasPage(PageOf(cp))
      modifies pages.items
      ensures Valid() && At(cp) == v
      ensures forall c :: c != cp ==> At(c) == old(At(c))
    {
      var page := pages.Get(PageOf(cp));
      pages.Set(PageOf(cp), Some(page.value[SlotOf(cp) := v]));
      forall c | c != cp
        ensures At(c) == old(At(c))
      {
        SplitJoins(c, cp);
      }
    }

    /** Read the slot of `cp`: `empty` past the vector's size or in a missing page. */
    method Read(cp: uint32) returns (v: V)
      requires Valid()
      ensures v == At(cp)
    {
      if pages.size <= PageOf(cp) {
        return empty;
      }
      var page := pages.Get(PageOf(cp));
      if page.None? {
        return empty;
      }
      v := page.value[SlotOf(cp)];
    }
  }

  /** `ftgl_rendermode_t`. */
  datatype RenderMode = RenderNormal | OutlineEdge | OutlinePositive | OutlineNegative | SignedDistanceField

  /** `ftgl_glyphmode_t`: does another record of the same codepoint follow? */
  datatype GlyphMode = GlyphEnd | GlyphCont

  /**
   * The fields of `ftgl_texture_glyph_t` that the index and the lookup use;
   * `outline_thickness` is only ever compared for equality.
   */
  datatype Glyph = Glyph(codepoint: uint32, width: nat, height: nat, offsetX: int, offsetY: int,
                         rendermode: RenderMode, thickness: real, mode: GlyphMode)

  /** All records but the last continue the chain; the last ends it. */
  ghost predicate ChainShape(c: seq<Glyph>)
  {
    |c| == 0 || (c[|c| - 1].mode == GlyphEnd && forall k :: 0 <= k < |c| - 1 ==> c[k].mode == GlyphCont)
  }

  /** The chain after `g` is indexed behind it. */
  function Appended(c: seq<Glyph>, g: Glyph): (r: seq<Glyph>)
    requires ChainShape(c)
    ensures |r| == |c| + 1 && r[|c|] == g
    ensures forall k :: 0 <= k < |c| ==> r[k] == c[k].(mode := GlyphCont)
  {
    if |c| == 0 then [g] else c[..|c| - 1] + [c[|c| - 1].(mode := GlyphCont), g]
  }

  /** Appending a record that ends the chain keeps its shape. */
  lemma AppendedShape(c: seq<Glyph>, g: Glyph)
    requires ChainShape(c) && g.mode == GlyphEnd
    ensures ChainShape(Appended(c, g))
  {
  }

  /** Does a record carry the lookup key of the font? */
  predicate Matches(g: Glyph, mode: RenderMode, thickness: real)
  {
    g.rendermode == mode && g.thickness == thickness
  }

  /** The chain walk of `find_glyph_gi`: stop at a match, give up at a record that ends the chain. */
  function FirstMatch(c: seq<Glyph>, mode: RenderMode, thickness: real): Option<Glyph>
    decreases |c|
  {
    if |c| == 0 then None
    else if Matches(c[0], mode, thickness) then Some(c[0])
    else if c[0].mode != GlyphCont then None
    else FirstMatch(c[1..], mode, thickness)
  }

  /** On a well-shaped chain the walk finds nothing exactly when no record matches. */
  lemma {:induction false} FirstMatchNone(c: seq<Glyph>, mode: RenderMode, thickness: real)
    requires ChainShape(c)
    ensures FirstMatch(c, mode, thickness) == None <==> forall k :: 0 <= k < |c| ==> !Matches(c[k], mode, thickness)
    decreases |c|
  {
    if |c| > 0 && !Matches(c[0], mode, thickness) && c[0].mode == GlyphCont {
      FirstMatchNone(c[1..], mode, thickness);
      forall k | 0 <= k < |c| && k > 0
        ensures c[k] == c[1..][k - 1]
      {
      }
    }
  }

  /** The walk returns the first record that matches. */
  lemma {:induction false} FirstMatchFound(c: seq<Glyph>, mode: RenderMode, thickness: real, k: nat)
    requires ChainShape(c) && k < |c| && Matches(c[k], mode, thickness)
    requires forall j :: 0 <= j < k ==> !Matches(c[j], mode, thickness)
    ensures FirstMatch(c, mode, thickness) == Some(c[k])
    decreases k
  {
    if k > 0 {
      assert c[1..][k - 1] == c[k];
      forall j | 0 <= j < k - 1
        ensures !Matches(c[1..][j], mode, thickness)
      {
        assert c[1..][j] == c[j + 1];
      }
      FirstMatchFound(c[1..], mode, thickness, k - 1);
    }
  }

  /**
   * Indexing a record behind a chain does not change what an earlier record
   * answers (bar its END marker turning into CONT); when nothing in the chain
   * matched, the new record is found exactly when it has the key.
   */
  lemma {:induction false} FindAfterAppend(c: seq<Glyph>, g: Glyph, mode: RenderMode, thickness: real)
    requires ChainShape(c) && g.mode == GlyphEnd
    ensures FirstMatch(c, mode, thickness).Some? ==>
              FirstMatch(Appended(c, g), mode, thickness) == Some(FirstMatch(c, mode, thickness).value.(mode := GlyphCont))
    ensures FirstMatch(c, mode, thickness).None? ==>
              FirstMatch(Appended(c, g), mode, thickness) == if Matches(g, mode, thickness) then Some(g) else None
    decreases |c|
  {
    var a := Appended(c, g);
    if |c| == 0 {
      assert a == [g];
    } else if |c| == 1 {
      assert a[1..] == [g];
    } else {
      assert c[0].mode == GlyphCont && a[0] == c[0];
      assert ChainShape(c[1..]);
      assert a[1..] == Appended(c[1..], g);
      FindAfterAppend(c[1..], g, mode, thickness);
    }
  }

  /**
   * The record a lookup returns for a missing glyph, as `load_glyph_gi` hands
   * it on to `index_glyph`: when it is not the last record of codepoint 0's
   * chain it is CONT, and copying it behind a chain, as the occupied-slot path
   * does, leaves a chain with no END record, so neither the `glyphmode` loop of
   * the next `index_glyph` nor a walk for a key nothing in it has stops inside it.
   */
  lemma IndexFoundAsWritten(c0: seq<Glyph>, c: seq<Glyph>, mode: RenderMode, thickness: real, k: nat)
    requires ChainShape(c0) && ChainShape(c) && |c| > 0
    requires k < |c0| - 1 && Matches(c0[k], mode, thickness)
    requires forall j :: 0 <= j < k ==> !Matches(c0[j], mode, thickness)
    ensures FirstMatch(c0, mode, thickness) == Some(c0[k]) && c0[k].mode == GlyphCont
    ensures !ChainShape(Appended(c, c0[k]))
    ensures forall j :: 0 <= j < |Appended(c, c0[k])| ==> Appended(c, c0[k])[j].mode == GlyphCont
  {
    FirstMatchFound(c0, mode, thickness, k);
  }

  /** The index of the record that ends a well-shaped, non-empty chain. */
  method FindEnd(chain: seq<Glyph>) returns (k: nat)
    requires |chain| > 0 && ChainShape(chain)
    ensures k == |chain| - 1
  {
    k := 0;
    while chain[k].mode != GlyphEnd
      invariant k < |chain|
      decreases |chain| - k
    {
      k := k + 1;
    }
  }

  /** The `glyphs` index of a font: per codepoint, a chain of records differing in their key. */
  class GlyphIndex {
    const table: TwoLevel<seq<Glyph>>

    ghost predicate Valid()
      reads table.pages, table.pages.items
    {
      table.Valid() && table.empty == [] && forall cp :: ChainShape(table.At(cp))
    }

    /** The chain indexed under a codepoint; empty for a NULL slot. */
    ghost function Chain(cp: uint32): seq<Glyph>
      reads table.pages, table.pages.items
      requires Valid()
    {
      table.At(cp)
    }

    /** The index of a fresh font: no codepoint has a record. */
    constructor ()
      ensures Valid() && fresh(table) && fresh(table.pages) && fresh(table.pages.items)
      ensures forall cp :: Chain(cp) == []
    {
      table := new TwoLevel([]);
    }

    /**
     * `ftgl_texture_font_index_glyph`: store the record of a fresh glyph, which
     * ends its chain, behind whatever is indexed under the codepoint.
     * `resizeOk` and `pageOk` are the outcomes of the vector resize and of the
     * page `calloc`; either failure returns `MemoryError` with every chain as it was.
     */
    method IndexGlyph(glyph: Glyph, codepoint: uint32, resizeOk: bool, pageOk: bool) returns (ret: ReturnCode)
      requires Valid() && glyph.mode == GlyphEnd
      modifies table.pages, table.pages.items
      ensures Valid()
      ensures ret == MemoryError <==>
                (old(table.pages.size) <= PageOf(codepoint) && old(table.pages.items.Length) < PageOf(codepoint) + 1 && !resizeOk)
                || (!old(table.HasPage(PageOf(codepoint))) && !pageOk)
      ensures ret != MemoryError ==> ret == NoError && PageOf(codepoint) < table.pages.size
      ensures table.pages.size >= old(table.pages.size)
      ensures ret == NoError ==> Chain(codepoint) == Appended(old(Chain(codepoint)), glyph)
      ensures forall c :: c != codepoint || ret != NoError ==> Chain(c) == old(Chain(c))
    {
      var i := PageOf(codepoint);
      ret := table.Reach(i, resizeOk);
      if ret != NoError {
        return;
      }
      ret := table.Page(i, pageOk);
      if ret != NoError {
        return;
      }
      Append(glyph, codepoint);
    }

    /**
     * The missing-glyph path of `load_glyph_gi`, corrected: the record found
     * for codepoint 0, whatever its mode, is indexed as a record that ends the
     * chain, so the chain keeps its shape and a lookup finds it.
     */
    method IndexFound(glyph: Glyph, codepoint: uint32, resizeOk: bool, pageOk: bool) returns (ret: ReturnCode)
      requires Valid()
      modifies table.pages, table.pages.items
      ensures Valid()
      ensures ret == MemoryError <==>
                (old(table.pages.size) <= PageOf(codepoint) && old(table.pages.items.Length) < PageOf(codepoint) + 1 && !resizeOk)
                || (!old(table.HasPage(PageOf(codepoint))) && !pageOk)
      ensures ret == NoError ==> Chain(codepoint) == Appended(old(Chain(codepoint)), glyph.(mode := GlyphEnd))
      ensures forall c :: c != codepoint || ret != NoError ==> Chain(c) == old(Chain(c))
      ensures ret == NoError && old(FirstMatch(Chain(codepoint), glyph.rendermode, glyph.thickness)).None? ==>
                FirstMatch(Chain(codepoint), glyph.rendermode, glyph.thickness) == Some(glyph.(mode := GlyphEnd))
    {
      ghost var c := Chain(codepoint);
      ret := IndexGlyph(glyph.(mode := GlyphEnd), codepoint, resizeOk, pageOk);
      FindAfterAppend(c, glyph.(mode := GlyphEnd), glyph.rendermode, glyph.thickness);
    }

    /**
     * The end of `index_glyph` once the page exists: an empty slot takes the
     * record, an occupied one has its END record turned into CONT and the
     * record copied behind it.
     */
    method Append(glyph: Glyph, codepoint: uint32)
      requires Valid() && glyph.mode == GlyphEnd && table.HasPage(PageOf(codepoint))
      modifies table.pages.items
      ensures Valid()
      ensures Chain(codepoint) == Appended(old(Chain(codepoint)), glyph)
      ensures forall c :: c != codepoint ==> Chain(c) == old(Chain(c))
    {
      var chain := table.Read(codepoint);
      if |chain| > 0 {
        var k := FindEnd(chain);
        chain := chain[..k] + [chain[k].(mode := GlyphCont), glyph];
      } else {
        chain := [glyph];
      }
      AppendedShape(table.At(codepoint), glyph);
      table.Write(codepoint, chain);
      forall c
        ensures ChainShape(table.At(c))
      {
        if c != codepoint {
          assert table.At(c) == old(table.At(c));
        }
      }
    }

    /**
     * `ftgl_texture_font_find_glyph_gi`: walk the chain of a codepoint for the
     * record carrying the font's render mode and outline thickness; `None`
     * stands for the NULL result.
     */
    method FindGlyphGi(codepoint: uint32, mode: RenderMode, thickness: real) returns (r: Option<Glyph>)
      requires Valid()
      ensures r == FirstMatch(Chain(codepoint), mode, thickness)
    {
      var chain := table.Read(codepoint);
      if |chain| == 0 {
        return None;
      }
      var k := 0;
      while !Matches(chain[k], mode, thickness)
        invariant k < |chain|
        invariant FirstMatch(chain[k..], mode, thickness) == FirstMatch(chain, mode, thickness)
        decreases |chain| - k
      {
        if chain[k].mode != GlyphCont {
          return None;
        }
        assert chain[k..][1..] == chain[k + 1..];
        k := k + 1;
      }
      return Some(chain[k]);
    }
  }

  /** The `kerning` table of a glyph: the kerning against each preceding codepoint. */
  class Kerning {
    const table: TwoLevel<real>

    ghost predicate Valid()
      reads table.pages, table.pages.items
    {
      table.Valid() && table.empty == 0.0
    }

    /** The kerning recorded against a codepoint; 0 where nothing was recorded. */
    ghost function KernAt(cp: uint32): real
      reads table.pages, table.pages.items
      requires Valid()
    {
      table.At(cp)
    }

    /** The table of a fresh glyph: every kerning is 0. */
    constructor ()
      ensures Valid() && fresh(table) && fresh(table.pages) && fresh(table.pages.items)
      ensures forall cp :: KernAt(cp) == 0.0
    {
      table := new TwoLevel(0.0);
    }

    /**
     * `ftgl_texture_font_index_kerning`: record the kerning against a
     * codepoint; the source does not check its resize and `calloc`, so both
     * are taken to succeed.
     */
    method IndexKerning(codepoint: uint32, kerning: real)
      requires Valid()
      modifies table.pages, table.pages.items
      ensures Valid()
      ensures KernAt(codepoint) == kerning
      ensures forall c :: c != codepoint ==> KernAt(c) == old(KernAt(c))
    {
      var ret := table.Reach(PageOf(codepoint), true);
      ret := table.Page(PageOf(codepoint), true);
      table.Write(codepoint, kerning);
    }

    /**
     * `ftgl_texture_glyph_get_kerning`: decode the UTF-8 character and read its
     * kerning; a NULL string decodes to `0xFFFFFFFF` and reads 0.
     */
    method GetKerning(codepoint: Pointer) returns (k: real)
      requires Valid()
      ensures Utf8ToUtf32(codepoint) == NullCodepoint ==> k == 0.0
      ensures Utf8ToUtf32(codepoint) != NullCodepoint ==> k == KernAt(Utf8ToUtf32(codepoint) as int as uint32)
    {
      var ucodepoint := Utf8ToUtf32(codepoint);
      if ucodepoint == NullCodepoint {
        return 0.0;
      }
      k := table.Read(ucodepoint as int as uint32);
    }
  }

  /** The kerning recorded for the codepoint that a string encodes is what a lookup by that string reads. */
  lemma KerningOfEncoded(cp: bv32, rest: seq<bv8>)
    requires cp < 0x11_0000
    ensures Utf8ToUtf32(Ptr(Encode(cp) + rest, 0)) != NullCodepoint
    ensures Utf8ToUtf32(Ptr(Encode(cp) + rest, 0)) as int as uint32 == cp as int as uint32
  {
    DecodeEncode(cp, rest);
  }

  /** The margins around a glyph bitmap in the atlas, `left, top, right, bottom`. */
  datatype Padding = Padding(left: int, top: int, right: int, bottom: int)

  /**
   * The padding block of `ftgl_texture_font_load_glyph_gi`: one column on the
   * right and one row at the bottom, one more each at the left and top for
   * distance fields, and the font's `padding` on every side.
   */
  function GlyphPadding(mode: RenderMode, fontPadding: int): (p: Padding)
    ensures p.right == p.bottom == fontPadding + 1
    ensures p.left == p.top == fontPadding + (if mode == SignedDistanceField then 1 else 0)
  {
    var p := Padding(0, 0, 1, 1);
    var p := if mode == SignedDistanceField then p.(top := 1, left := 1) else p;
    if fontPadding != 0 then
      Padding(p.left + fontPadding, p.top + fontPadding, p.right + fontPadding, p.bottom + fontPadding)
    else p
  }

  /** `SIZE_MAX + 1`: `size_t` arithmetic wraps modulo this. */
  const SizeModulus: int := 0x1_0000_0000_0000_0000

  /** The source width of a bitmap: a depth-3 (LCD) bitmap has three bytes per pixel. */
  function SourceWidth(depth: nat, bitmapWidth: uint32): nat
  {
    if depth == 3 then bitmapWidth as int / 3 else bitmapWidth as int
  }

  /** `tgt_w, tgt_h`: the padded size requested from the atlas, as `size_t` values. */
  function TargetSize(depth: nat, bitmapWidth: uint32, rows: uint32, p: Padding): (nat, nat)
  {
    ((SourceWidth(depth, bitmapWidth) + p.left + p.right) % SizeModulus,
     (rows as int + p.top + p.bottom) % SizeModulus)
  }

  /**
   * With a non-negative font padding that fits an `int`, nothing wraps: the
   * target is the bitmap with its margins, at least one column wider and one
   * row taller, and a distance-field bitmap has a margin on every side.
   */
  lemma TargetSizeHasMargins(mode: RenderMode, fontPadding: int, depth: nat, bitmapWidth: uint32, rows: uint32)
    requires 0 <= fontPadding < 0x7FFF_FFFF
    ensures var p := GlyphPadding(mode, fontPadding);
            var (w, h) := TargetSize(depth, bitmapWidth, rows, p);
            && w == p.left + SourceWidth(depth, bitmapWidth) + p.right
            && h == p.top + rows as int + p.bottom
            && p.left >= 0 && p.top >= 0 && p.right >= 1 && p.bottom >= 1
            && (mode == SignedDistanceField ==> p.left >= 1 && p.top >= 1)
  {
  }

  /** A depth-3 bitmap of `n` bytes per row is `n / 3` pixels wide, rounding down. */
  lemma LcdSourceWidth(bitmapWidth: uint32)
    ensures 3 * SourceWidth(3, bitmapWidth) <= bitmapWidth as int < 3 * SourceWidth(3, bitmapWidth) + 3
  {
  }

  /** A negative font padding can wrap the unsigned target width around. */
  lemma NegativePaddingWraps()
    ensures TargetSize(1, 0, 0, GlyphPadding(RenderNormal, -1)).0 == SizeModulus - 1
  {
  }
}
