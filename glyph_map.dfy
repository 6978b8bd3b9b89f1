/**
 * The single-header font of `font.h`: a chained hash map of 23 buckets from
 * codepoints to glyphs, and the shelf cursor `tbox`/`tbox_yjump` that
 * places each new glyph bitmap in a 1024 x 1024 texture, left to right in
 * rows, with 5 pixels between glyphs and between rows.
 */
module LegacyFont {
  import opened Wrappers

  /** `FTGL_FONT_GLYPHMAP_CAPACITY`. */
  const Capacity: nat := 23

  /** `FTGL_FONT_ATLAS_WIDTH` and `FTGL_FONT_ATLAS_HEIGHT`. */
  const AtlasWidth: int := 1024
  const AtlasHeight: int := 1024

  /** The gap the cursor leaves after a glyph and below a row. */
  const Gap: int := 5

  /** The bucket of a codepoint. */
  function Hash(cp: uint32): nat
  {
    cp as int % Capacity
  }

  /** A glyph's box in the texture: `x, y, w, h`. */
  datatype BBox = BBox(x: int, y: int, w: int, h: int)

  /** `ftgl_glyph_t`: the box, the codepoint, the bearings and the advances. */
  datatype Glyph = Glyph(codepoint: uint32, bbox: BBox, offsetX: int, offsetY: int, advanceX: real, advanceY: real)

  /** Every glyph of a chain belongs in bucket `h`. */
  ghost predicate InBucket(chain: seq<Glyph>, h: nat)
  {
    forall k :: 0 <= k < |chain| ==> Hash(chain[k].codepoint) == h
  }

  /** No codepoint occurs twice in a chain. */
  ghost predicate Unique(chain: seq<Glyph>)
  {
    forall k, l :: 0 <= k < l < |chain| ==> chain[k].codepoint != chain[l].codepoint
  }

  /** Some glyph of a chain has the codepoint. */
  ghost predicate Has(chain: seq<Glyph>, cp: uint32)
  {
    exists k :: 0 <= k < |chain| && chain[k].codepoint == cp
  }

  /** Prepending a glyph whose codepoint is absent keeps the chain free of duplicates and adds just that codepoint. */
  lemma Prepend(chain: seq<Glyph>, g: Glyph, h: nat)
    requires InBucket(chain, h) && Unique(chain) && !Has(chain, g.codepoint) && Hash(g.codepoint) == h
    ensures InBucket([g] + chain, h) && Unique([g] + chain)
    ensures forall c :: Has([g] + chain, c) <==> c == g.codepoint || Has(chain, c)
  {
    var n := [g] + chain;
    forall k, l | 0 <= k < l < |n|
      ensures n[k].codepoint != n[l].codepoint
    {
      assert n[l] == chain[l - 1];
      if k > 0 {
        assert n[k] == chain[k - 1];
      }
    }
    forall c
      ensures Has(n, c) <==> c == g.codepoint || Has(chain, c)
    {
      assert n[0] == g;
      if Has(chain, c) {
        var k :| 0 <= k < |chain| && chain[k].codepoint == c;
        assert n[k + 1] == chain[k];
      }
      if Has(n, c) && c != g.codepoint {
        var k :| 0 <= k < |n| && n[k].codepoint == c;
        assert chain[k - 1] == n[k];
      }
    }
  }

  /** `ftgl_glyphmap_t`; each bucket's linked list is the sequence of its glyphs, head first. */
  class GlyphMap {
    const buckets: array<seq<Glyph>>

    /** Every glyph sits in the bucket of its codepoint, and no codepoint is stored twice. */
    ghost predicate Valid()
      reads buckets
    {
      buckets.Length == Capacity && forall h :: 0 <= h < Capacity ==> InBucket(buckets[h], h) && Unique(buckets[h])
    }

    /** Some glyph of the map has this codepoint. */
    ghost predicate Present(cp: uint32)
      reads buckets
      requires Valid()
    {
      Has(buckets[Hash(cp)], cp)
    }

    /** `ftgl_glyphmap_create`: all buckets empty. */
    constructor ()
      ensures Valid() && fresh(buckets)
      ensures forall h :: 0 <= h < Capacity ==> buckets[h] == []
      ensures forall cp :: !Present(cp)
    {
      buckets := new seq<Glyph>[Capacity](_ => []);
    }

    /** `ftgl_glyphmap_find_glyph`: the glyph of a codepoint, or `None` for NULL. */
    method Find(codepoint: uint32) returns (r: Option<Glyph>)
      requires Valid()
      ensures r.Some? <==> Present(codepoint)
      ensures r.Some? ==> r.value.codepoint == codepoint && r.value in buckets[Hash(codepoint)]
    {
      var chain := buckets[Hash(codepoint)];
      var k := 0;
      while k < |chain|
        invariant k <= |chain|
        invariant forall m :: 0 <= m < k ==> chain[m].codepoint != codepoint
      {
        if chain[k].codepoint == codepoint {
          return Some(chain[k]);
        }
        k := k + 1;
      }
      return None;
    }

    /**
     * `ftgl_glyphmap_insert`: a codepoint already present is left as it is;
     * otherwise a new node is prepended to its bucket.  `allocOk` is the
     * outcome of the two allocations of the node.
     */
    method Insert(codepoint: uint32, bbox: BBox, offsetX: int, offsetY: int, advanceX: real, advanceY: real,
                  allocOk: bool) returns (ret: ReturnCode)
      requires Valid()
      modifies buckets
      ensures Valid()
      ensures old(Present(codepoint)) ==> ret == NoError && buckets[..] == old(buckets[..])
      ensures !old(Present(codepoint)) && !allocOk ==> ret == MemoryError && buckets[..] == old(buckets[..])
      ensures !old(Present(codepoint)) && allocOk ==>
                && ret == NoError
                && buckets[..] == old(buckets[..])[Hash(codepoint) := [Glyph(codepoint, bbox, offsetX, offsetY, advanceX, advanceY)]
                                                                       + old(buckets[Hash(codepoint)])]
      ensures ret == NoError ==> Present(codepoint)
      ensures forall c :: c != codepoint ==> Present(c) == old(Present(c))
    {
      var found := Find(codepoint);
      if found.Some? {
        return NoError;
      }
      if !allocOk {
        return MemoryError;
      }
      var h := Hash(codepoint);
      var g := Glyph(codepoint, bbox, offsetX, offsetY, advanceX, advanceY);
      Prepend(buckets[h], g, h);
      buckets[h] := [g] + buckets[h];
      ret := NoError;
    }

    /** `ftgl_glyphmap_free`: every bucket's nodes are released and the bucket emptied. */
    method Free()
      requires Valid()
      modifies buckets
      ensures Valid()
      ensures forall h :: 0 <= h < Capacity ==> buckets[h] == []
      ensures forall cp :: !Present(cp)
    {
      for i := 0 to Capacity
        invariant forall h :: 0 <= h < i ==> buckets[h] == []
        invariant Valid()
      {
        buckets[i] := [];
      }
    }
  }

  /** A glyph found in the map is the one inserted for its codepoint. */
  lemma FoundIsInserted(m: GlyphMap, cp: uint32, g: Glyph, found: Glyph)
    requires m.Valid() && |m.buckets[Hash(cp)]| > 0 && m.buckets[Hash(cp)][0] == g && g.codepoint == cp
    requires found.codepoint == cp && found in m.buckets[Hash(cp)]
    ensures found == g
  {
    var b := m.buckets[Hash(cp)];
    var k :| 0 <= k < |b| && b[k] == found;
    assert Unique(b) && b[0].codepoint == b[k].codepoint;
    assert k == 0;
  }

  /** The shelf cursor: `tbox.x`, `tbox.y` and `tbox_yjump`, the height of the current row. */
  datatype Cursor = Cursor(x: int, y: int, yjump: int)

  /** The cursor of a fresh font. */
  const Start: Cursor := Cursor(Gap, Gap, 0)

  /** A glyph that would reach the right edge opens the next row. */
  function Wrapped(c: Cursor, w: nat): Cursor
  {
    if c.x + w >= AtlasWidth then Cursor(Gap, c.y + c.yjump + Gap, 0) else c
  }

  /** The box a `w` x `rows` bitmap gets, or `None` when the row is below the bottom edge. */
  function Placement(c: Cursor, w: nat, rows: nat): Option<BBox>
  {
    var d := Wrapped(c, w);
    if d.y + rows >= AtlasHeight then None else Some(BBox(d.x, d.y, w, rows))
  }

  /** The cursor after a bitmap has been placed. */
  function Advanced(c: Cursor, w: nat, rows: nat): Cursor
  {
    var d := Wrapped(c, w);
    Cursor(d.x + w + Gap, d.y, if rows > d.yjump then rows else d.yjump)
  }

  /** Two boxes share no pixel. */
  predicate Disjoint(a: BBox, b: BBox)
  {
    a.x + a.w <= b.x || b.x + b.w <= a.x || a.y + a.h <= b.y || b.y + b.h <= a.y
  }

  /**
   * The boxes placed so far, against the cursor: they do not overlap; those of
   * the current row start at its top, end left of the cursor and are no taller
   * than the row; those of earlier rows end above it.
   */
  ghost predicate Shelved(placed: seq<BBox>, c: Cursor)
  {
    && c.x >= Gap && c.y >= Gap && c.yjump >= 0
    && (forall i, j :: 0 <= i < j < |placed| ==> Disjoint(placed[i], placed[j]))
    && (forall i :: 0 <= i < |placed| ==>
          placed[i].w >= 0 && placed[i].h >= 0 &&
          ((placed[i].y == c.y && placed[i].x + placed[i].w + Gap <= c.x && placed[i].h <= c.yjump)
           || placed[i].y + placed[i].h + Gap <= c.y))
  }

  /** Opening a new row keeps the boxes shelved. */
  lemma WrapKeepsShelved(placed: seq<BBox>, c: Cursor, w: nat)
    requires Shelved(placed, c)
    ensures Shelved(placed, Wrapped(c, w))
  {
  }

  /** A placed box overlaps none before it, and the cursor moves on past it. */
  lemma PlaceKeepsShelved(placed: seq<BBox>, c: Cursor, w: nat, rows: nat)
    requires Shelved(placed, c) && Placement(c, w, rows).Some?
    ensures forall i :: 0 <= i < |placed| ==> Disjoint(placed[i], Placement(c, w, rows).value)
    ensures Shelved(placed + [Placement(c, w, rows).value], Advanced(c, w, rows))
  {
    WrapKeepsShelved(placed, c, w);
    var b := Placement(c, w, rows).value;
    var d := Wrapped(c, w);
    var e := Advanced(c, w, rows);
    var q := placed + [b];
    forall i | 0 <= i < |placed|
      ensures Disjoint(placed[i], b)
    {
    }
    forall i | 0 <= i < |q|
      ensures q[i].w >= 0 && q[i].h >= 0
      ensures (q[i].y == e.y && q[i].x + q[i].w + Gap <= e.x && q[i].h <= e.yjump) || q[i].y + q[i].h + Gap <= e.y
    {
      if i < |placed| {
        assert q[i] == placed[i];
      }
    }
    forall i, j | 0 <= i < j < |q|
      ensures Disjoint(q[i], q[j])
    {
      if j < |placed| {
        assert q[i] == placed[i] && q[j] == placed[j];
      } else {
        assert q[i] == placed[i] && q[j] == b;
      }
    }
  }

  /** A placed box lies below the top gap, left of nothing but the gap, and above the bottom edge; it ends left of the right edge unless the bitmap is wider than a row. */
  lemma PlacementInAtlas(c: Cursor, w: nat, rows: nat)
    requires c.x >= Gap && c.y >= Gap && c.yjump >= 0
    requires Placement(c, w, rows).Some?
    ensures var b := Placement(c, w, rows).value;
            && b.x >= Gap && b.y >= Gap && b.y + b.h < AtlasHeight
            && (w < AtlasWidth - Gap ==> b.x + b.w < AtlasWidth)
  {
  }

  /** The box of a bitmap as wide as a row starts at the gap and runs past the right edge. */
  lemma WideBitmapOverruns(c: Cursor, rows: nat)
    requires c.x >= Gap && c.y + c.yjump + Gap + rows < AtlasHeight
    ensures Placement(c, AtlasWidth - Gap, rows) == Some(BBox(Gap, c.y + c.yjump + Gap, AtlasWidth - Gap, rows))
    ensures Placement(c, AtlasWidth - Gap, rows).value.x + Placement(c, AtlasWidth - Gap, rows).value.w >= AtlasWidth
  {
  }

  /** `ftgl_font_t`, reduced to the glyph map and the cursor. */
  class Font {
    const glyphmap: GlyphMap
    var tbox: Cursor
    /** The boxes handed out so far, in order. */
    ghost var placed: seq<BBox>

    ghost predicate Valid()
      reads this, glyphmap.buckets
    {
      glyphmap.Valid() && Shelved(placed, tbox)
    }

    /** `ftgl_font_create`, reduced to the cursor and the map. */
    constructor ()
      ensures Valid() && fresh(glyphmap) && fresh(glyphmap.buckets)
      ensures tbox == Start && placed == []
      ensures forall cp :: !glyphmap.Present(cp)
    {
      glyphmap := new GlyphMap();
      tbox := Start;
      placed := [];
    }

    /**
     * `ftgl_font_load_codepoint` with the FreeType results as parameters:
     * `loadOk` is the outcome of `FT_Load_Char`, `width` and `rows` the bitmap
     * size, `offsetX`, `offsetY` its bearings and `advanceX`, `advanceY` the
     * advances in pixels; `allocOk` is the outcome of the map's allocations.
     */
    method LoadCodepoint(codepoint: uint32, loadOk: bool, width: nat, rows: nat, offsetX: int, offsetY: int,
                         advanceX: real, advanceY: real, allocOk: bool) returns (r: Option<Glyph>)
      requires Valid()
      modifies this, glyphmap.buckets
      ensures Valid()
      ensures old(glyphmap.Present(codepoint)) ==>
                && r.Some? && r.value.codepoint == codepoint && r.value in glyphmap.buckets[Hash(codepoint)]
                && tbox == old(tbox) && placed == old(placed) && glyphmap.buckets[..] == old(glyphmap.buckets[..])
      ensures !old(glyphmap.Present(codepoint)) && !loadOk ==>
                r == None && tbox == old(tbox) && placed == old(placed) && glyphmap.buckets[..] == old(glyphmap.buckets[..])
      ensures !old(glyphmap.Present(codepoint)) && loadOk ==> Placed(old(tbox), old(placed), old(glyphmap.buckets[..]), r,
                                                                  codepoint, width, rows, offsetX, offsetY, advanceX, advanceY, allocOk)
    {
      r := glyphmap.Find(codepoint);
      if r.Some? {
        return;
      }
      if !loadOk {
        return None;
      }
      r := PlaceNew(codepoint, width, rows, offsetX, offsetY, advanceX, advanceY, allocOk);
    }

    /**
     * What placing a new glyph leaves behind: on failure (no room below, or
     * the map's allocation fails) only the wrapped cursor; on success the
     * inserted glyph with its box, the advanced cursor and the box recorded.
     */
    ghost predicate Placed(c: Cursor, p: seq<BBox>, b: seq<seq<Glyph>>, r: Option<Glyph>, codepoint: uint32,
                           width: nat, rows: nat, offsetX: int, offsetY: int, advanceX: real, advanceY: real, allocOk: bool)
      reads this, glyphmap.buckets
      requires glyphmap.Valid()
    {
      if Placement(c, width, rows).None? || !allocOk then
        r == None && tbox == Wrapped(c, width) && placed == p && glyphmap.buckets[..] == b
      else
        && r == Some(Glyph(codepoint, Placement(c, width, rows).value, offsetX, offsetY, advanceX, advanceY))
        && tbox == Advanced(c, width, rows)
        && placed == p + [Placement(c, width, rows).value]
        && glyphmap.Present(codepoint)
    }

    /** The part of `ftgl_font_load_codepoint` after `FT_Load_Char` succeeded for a new codepoint. */
    method PlaceNew(codepoint: uint32, width: nat, rows: nat, offsetX: int, offsetY: int,
                    advanceX: real, advanceY: real, allocOk: bool) returns (r: Option<Glyph>)
      requires Valid() && !glyphmap.Present(codepoint)
      modifies this, glyphmap.buckets
      ensures Valid()
      ensures Placed(old(tbox), old(placed), old(glyphmap.buckets[..]), r,
                     codepoint, width, rows, offsetX, offsetY, advanceX, advanceY, allocOk)
      ensures forall c :: c != codepoint ==> glyphmap.Present(c) == old(glyphmap.Present(c))
    {
      ghost var c0 := tbox;
      WrapCursor(width);
      if tbox.y + rows >= AtlasHeight {
        return None;
      }
      r := Commit(c0, codepoint, width, rows, offsetX, offsetY, advanceX, advanceY, allocOk);
    }

    /** Open the next row when the bitmap would reach the right edge. */
    method WrapCursor(width: nat)
      requires Valid()
      modifies this`tbox
      ensures Valid() && tbox == Wrapped(old(tbox), width)
    {
      WrapKeepsShelved(placed, tbox, width);
      if tbox.x + width >= AtlasWidth {
        tbox := Cursor(Gap, tbox.y + tbox.yjump + Gap, 0);
      }
    }

    /** Insert the glyph with its box at the (wrapped) cursor and move the cursor past it. */
    method Commit(ghost c0: Cursor, codepoint: uint32, width: nat, rows: nat, offsetX: int, offsetY: int,
                  advanceX: real, advanceY: real, allocOk: bool) returns (r: Option<Glyph>)
      requires glyphmap.Valid() && Shelved(placed, c0) && tbox == Wrapped(c0, width)
      requires tbox.y + rows < AtlasHeight && !glyphmap.Present(codepoint)
      modifies this, glyphmap.buckets
      ensures Valid()
      ensures !allocOk ==> r == None && tbox == old(tbox) && placed == old(placed) && glyphmap.buckets[..] == old(glyphmap.buckets[..])
      ensures allocOk ==>
                && r == Some(Glyph(codepoint, Placement(c0, width, rows).value, offsetX, offsetY, advanceX, advanceY))
                && tbox == Advanced(c0, width, rows)
                && placed == old(placed) + [Placement(c0, width, rows).value]
                && glyphmap.Present(codepoint)
      ensures forall c :: c != codepoint ==> glyphmap.Present(c) == old(glyphmap.Present(c))
    {
      var bbox := BBox(tbox.x, tbox.y, width, rows);
      var ret := glyphmap.Insert(codepoint, bbox, offsetX, offsetY, advanceX, advanceY, allocOk);
      if ret != NoError {
        WrapKeepsShelved(placed, c0, width);
        return None;
      }
      r := glyphmap.Find(codepoint);
      FoundIsInserted(glyphmap, codepoint, Glyph(codepoint, bbox, offsetX, offsetY, advanceX, advanceY), r.value);
      PlaceKeepsShelved(placed, c0, width, rows);
      placed := placed + [bbox];
      tbox := Cursor(tbox.x + width + Gap, tbox.y, if rows > tbox.yjump then rows else tbox.yjump);
    }
  }
}
