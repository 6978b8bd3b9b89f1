/**
 * `ftgl_texture_atlas_t`: a texture of `width` x `height` pixels of `depth`
 * bytes, and the skyline node list that decides where the next rectangle
 * goes.  The methods follow `src/texture-atlas.c` step by step; each is
 * proved to compute the value-level rule of module Skyline (or the copy of
 * module Pixels), and the atlas invariant `Valid` records what the rule
 * guarantees: a well-formed skyline, and handed-out regions that lie inside
 * the border, below the skyline and pairwise apart.
 */
module TextureAtlas {
  import opened Wrappers
  import opened Skyline
  import opened Pixels
  import opened Vectors

  /** Total area of a list of regions: the atlas's `used` counter. */
  ghost function Area(rs: seq<Region>): int
  {
    if rs == [] then 0 else Area(rs[..|rs| - 1]) + rs[|rs| - 1].w * rs[|rs| - 1].h
  }

  /** A non-empty region strictly inside the one-pixel border of a `W` x `H` atlas. */
  ghost predicate InInterior(r: Region, W: int, H: int)
  {
    r.w > 0 && r.h >= 0 && 1 <= r.x && r.x + r.w <= W - 1 && 1 <= r.y && r.y + r.h <= H - 1
  }

  /**
   * What the packer guarantees of an atlas's nodes `ns`, its handed-out
   * regions `rs` and its `used` counter: a well-formed skyline, regions inside
   * the border, below the skyline and pairwise apart, and `used` their area.
   */
  ghost predicate Packed(ns: seq<Node>, rs: seq<Region>, used: int, W: int, H: int)
  {
    SkylineValid(ns, W, H)
    && used == Area(rs)
    && (forall k :: 0 <= k < |rs| ==> InInterior(rs[k], W, H))
    && (forall k :: 0 <= k < |rs| ==> Under(rs[k], ns))
    && (forall k, l :: 0 <= k < l < |rs| ==> Disjoint(rs[k], rs[l]))
  }

  /** A successful `get_region` keeps the packing invariant with the new region added. */
  lemma PlacePacked(ns: seq<Node>, rs: seq<Region>, used: int, w: int, h: int, W: int, H: int)
    requires Packed(ns, rs, used, W, H) && w > 0 && h >= 0
    ensures var (r, ns') := Place(ns, w, h, W, H);
      r != NoRegion ==> r.w == w && r.h == h && Packed(ns', rs + [r], used + w * h, W, H)
  {
    var (r, ns') := Place(ns, w, h, W, H);
    if r != NoRegion {
      PlaceRegion(ns, w, h, W, H);
      PlaceSkyline(ns, w, h, W, H);
      PlaceDisjoint(ns, w, h, W, H, rs);
      var rs' := rs + [r];
      assert rs'[..|rs'| - 1] == rs;
      assert Area(rs') == used + w * h;
      forall k, l | 0 <= k < l < |rs'| ensures Disjoint(rs'[k], rs'[l]) {
        if l < |rs| {
          assert rs'[k] == rs[k] && rs'[l] == rs[l];
        }
      }
    }
  }

  /** The state `create` and `clear` start from: one node spanning the interior, nothing handed out. */
  lemma InitialPacked(W: int, H: int)
    requires W >= 3 && H >= 2
    ensures Packed([Node(1, 1, W - 2)], [], 0, W, H)
  {
    InitialSkyline(W, H);
  }

  /**
   * `enlarge_texture` keeps the packing invariant: the regions stay inside the
   * larger border, and the appended node at height 1 lies right of all of them.
   */
  lemma WidenPacked(ns: seq<Node>, rs: seq<Region>, used: int, W: int, H: int, wn: int, hn: int)
    requires Packed(ns, rs, used, W, H) && wn >= W && hn >= H && H >= 2
    ensures Packed(ns + (if wn > W then [Node(W - 1, 1, wn - W)] else []), rs, used, wn, hn)
  {
    Widen(ns, W, H, wn, hn);
    var ns' := ns + (if wn > W then [Node(W - 1, 1, wn - W)] else []);
    forall k | 0 <= k < |rs| ensures Under(rs[k], ns') {
      var r := rs[k];
      assert InInterior(r, W, H) && Under(r, ns);
      forall c | r.x <= c < r.x + r.w ensures r.y + r.h <= SkyAt(ns', c) {
        assert c < W - 1;
        assert r.y + r.h <= SkyAt(ns, c);
        assert SkyAt(ns', c) == SkyAt(ns, c);
      }
    }
  }

  /** Overwriting the item at `i` and then erasing the one after it, as a vector of nodes sees it. */
  lemma SetThenErase(s: seq<Node>, i: nat, n: Node)
    requires i + 1 < |s|
    ensures s[i := n][..i + 1] + s[i := n][i + 2..] == s[..i] + [n] + s[i + 2..]
  {
  }

  /** The vector `p + rest` with its item at `|p|` overwritten by `n`, and then that item erased. */
  lemma ReplaceHead(p: seq<Node>, rest: seq<Node>, n: Node)
    requires |rest| > 0
    ensures (p + rest)[|p|] == rest[0] && (|p| > 0 ==> (p + rest)[|p| - 1] == p[|p| - 1])
    ensures (p + rest)[|p| := n] == p + ([n] + rest[1..])
    ensures (p + rest)[|p| := n][..|p|] + (p + rest)[|p| := n][|p| + 1..] == p + rest[1..]
  {
    assert (p + rest)[|p| := n] == p + ([n] + rest[1..]);
  }

  /** One step of `Clip`: the head is kept, cut back, or dropped. */
  lemma ClipHead(P: int, rest: seq<Node>)
    requires rest != []
    ensures rest[0].x >= P ==> Clip(P, rest) == rest
    ensures rest[0].x < P && rest[0].z - (P - rest[0].x) > 0 ==>
      Clip(P, rest) == [Node(P, rest[0].y, rest[0].z - (P - rest[0].x))] + rest[1..]
    ensures rest[0].x < P && rest[0].z - (P - rest[0].x) <= 0 ==> Clip(P, rest) == Clip(P, rest[1..])
  {
  }

  /** After inserting the rectangle's node at the best index, clipping the nodes behind it gives `Raise`. */
  lemma InsertedThenClipped(ns: seq<Node>, b: Best, w: int, h: int, c: seq<Node>)
    requires 0 <= b.index < |ns| && c == ns[..b.index] + [Node(b.x, b.y + h, w)] + ns[b.index..]
    ensures b.index + 1 < |c| && c[..b.index + 1] + Clip(c[b.index].x + c[b.index].z, c[b.index + 1..]) == Raise(ns, b, w, h)
  {
    assert c[..b.index + 1] == ns[..b.index] + [Node(b.x, b.y + h, w)];
    assert c[b.index + 1..] == ns[b.index..];
  }

  /**
   * One round of the shrinking loop: node `i`, the head of `rest`, is cut
   * back to the right edge of node `i - 1`; it is erased when no width is
   * left, which is the only case in which the loop goes on.
   */
  method TrimHead(nodes: Vector<Node>, i: nat, ghost p: seq<Node>, ghost rest: seq<Node>, ghost P: int) returns (erased: bool)
    requires nodes.Valid() && 0 < i < nodes.size && |p| == i && nodes.Contents() == p + rest
    requires P == p[i - 1].x + p[i - 1].z
    modifies nodes, nodes.items
    ensures nodes.Valid() && nodes.items == old(nodes.items)
    ensures erased ==> nodes.Contents() == p + rest[1..] && Clip(P, rest) == Clip(P, rest[1..])
    ensures !erased ==> nodes.Contents() == p + Clip(P, rest)
  {
    ReplaceHead(p, rest, rest[0]);
    var node := nodes.Get(i);
    var prev := nodes.Get(i - 1);
    assert node == rest[0] && prev.x + prev.z == P;
    ClipHead(P, rest);
    erased := false;
    if node.x < prev.x + prev.z {
      erased := CutHead(nodes, i, p, rest, prev.x + prev.z);
    }
  }

  /** The shrinking branch of `TrimHead`: node `i` now starts at `P`. */
  method CutHead(nodes: Vector<Node>, i: nat, ghost p: seq<Node>, ghost rest: seq<Node>, P: int) returns (erased: bool)
    requires nodes.Valid() && 0 < i < nodes.size && |p| == i && nodes.Contents() == p + rest && rest[0].x < P
    modifies nodes, nodes.items
    ensures nodes.Valid() && nodes.items == old(nodes.items)
    ensures erased == (rest[0].z - (P - rest[0].x) <= 0)
    ensures erased ==> nodes.Contents() == p + rest[1..]
    ensures !erased ==> nodes.Contents() == p + ([Node(P, rest[0].y, rest[0].z - (P - rest[0].x))] + rest[1..])
  {
    ghost var n := Node(P, rest[0].y, rest[0].z - (P - rest[0].x));
    ReplaceHead(p, rest, n);
    var node := nodes.Get(i);
    var shrink := P - node.x;
    node := Node(node.x + shrink, node.y, node.z - shrink);
    assert node == n;
    nodes.Set(i, node);
    assert nodes.Contents() == p + ([n] + rest[1..]);
    erased := false;
    if node.z <= 0 {
      nodes.Erase(i);
      erased := true;
    }
  }

  /** `memcpy(dst + off, src + so, len)`. */
  method Memcpy(dst: array<bv8>, off: nat, src: seq<bv8>, so: nat, len: nat)
    requires off + len <= dst.Length && so + len <= |src|
    modifies dst
    ensures dst[..] == Splice(old(dst[..]), off, src[so .. so + len])
  {
    forall k | 0 <= k < len {
      dst[off + k] := src[so + k];
    }
  }

  /** The 4 x 4 white square of the special glyph: 48 bytes `0xFF`, enough for depth up to 3 (and read with stride 0). */
  const WhiteSquare: seq<bv8> := seq(48, _ => 0xFF)

  class Atlas {
    /** The skyline nodes, left to right. */
    const nodes: Vector<Node>
    var width: nat
    var height: nat
    const depth: nat
    /** Allocated surface: the sum of the areas handed out. */
    var used: int
    var data: array<bv8>
    var modified: bool
    /** The regions handed out since creation or the last clear. */
    ghost var regions: seq<Region>

    /** The atlas invariant: a well-formed shape with the handed-out regions packed under the skyline. */
    ghost predicate Valid()
      reads this, nodes, nodes.items
    {
      Shape() && Packed(nodes.Contents(), regions, used, width, height)
    }

    /** The node vector, the size of the texture and the pixel depth are well formed. */
    ghost predicate Shape()
      reads this, nodes, nodes.items
    {
      nodes.Valid()
      && 3 <= width && 3 <= height && depth in {1, 3, 4}
      && data.Length == width * height * depth
      && data as object != nodes.items as object
    }

    /**
     * The part of `ftgl_texture_atlas_create` before the special region: one
     * node `(1, 1, width - 2)` spanning the interior, nothing used, a zeroed
     * texture, and the modified flag set.
     */
    constructor (w: nat, h: nat, d: nat)
      requires 3 <= w && 3 <= h && d in {1, 3, 4}
      ensures Valid() && fresh(nodes) && fresh(nodes.items) && fresh(data)
      ensures width == w && height == h && depth == d
      ensures nodes.Contents() == [Node(1, 1, w - 2)] && used == 0 && regions == [] && modified
      ensures data[..] == Zeros(w * h * d)
    {
      var v := new Vector(Node(0, 0, 0));
      var ret := v.PushBack(Node(1, 1, w - 2), false);
      nodes := v;
      width, height, depth := w, h, d;
      used := 0;
      data := new bv8[w * h * d](_ => 0);
      modified := true;
      regions := [];
      new;
      assert nodes.Contents() == [Node(1, 1, w - 2)];
      InitialSkyline(w, h);
      assert data[..] == Zeros(w * h * d);
    }

    /** `ftgl_texture_atlas_fit`: the row a `w` x `h` rectangle starting at node `index` would sit at, or -1. */
    method Fit(index: nat, w: nat, h: nat) returns (y: int)
      requires nodes.Valid() && SkylineValid(nodes.Contents(), width, height) && index < nodes.size
      ensures y == Skyline.Fit(nodes.Contents(), index, w, h, width, height)
    {
      ghost var ns := nodes.Contents();
      var node := nodes.Get(index);
      var x := node.x;
      y := node.y;
      var widthLeft: int := w;
      var i := index;
      if x + w > width - 1 {
        return -1;
      }
      TilesSplit(ns, 1, width - 1, index);
      while widthLeft > 0
        invariant index <= i <= |ns|
        invariant Tiles(ns[i..], x + w - widthLeft, width - 1)
        invariant FitScan(ns[index..], w, ns[index].y, h, height) == FitScan(ns[i..], widthLeft, y, h, height)
        decreases |ns| - i
      {
        assert ns[i..] != [];
        assert ns[i..][1..] == ns[i + 1..];
        node := nodes.Get(i);
        if node.y > y {
          y := node.y;
        }
        if y + h > height - 1 {
          return -1;
        }
        widthLeft := widthLeft - node.z;
        i := i + 1;
      }
    }

    /** The body of `merge` for equal heights: node `i` absorbs the width of node `i + 1`, which is erased. */
    method FuseNext(i: nat, node: Node, next: Node)
      requires nodes.Valid() && i + 1 < nodes.size
      requires node == nodes.Contents()[i] && next == nodes.Contents()[i + 1]
      modifies nodes, nodes.items
      ensures nodes.Valid() && nodes.items == old(nodes.items)
      ensures nodes.Contents() == MergeAt(old(nodes.Contents()), i)
    {
      ghost var before := nodes.Contents();
      nodes.Set(i, Node(node.x, node.y, node.z + next.z));
      nodes.Erase(i + 1);
      SetThenErase(before, i, Node(node.x, node.y, node.z + next.z));
    }

    /** `ftgl_texture_atlas_merge`: neighbouring nodes of equal height are fused, left to right. */
    method Merge()
      requires nodes.Valid() && nodes.size > 0
      modifies nodes, nodes.items
      ensures nodes.Valid() && nodes.items == old(nodes.items)
      ensures nodes.Contents() == Skyline.Merge(old(nodes.Contents()))
    {
      var i := 0;
      while i < nodes.size - 1
        invariant nodes.Valid() && nodes.items == old(nodes.items)
        invariant i < nodes.size
        invariant MergeFrom(nodes.Contents(), i) == Skyline.Merge(old(nodes.Contents()))
        decreases nodes.size - i
      {
        var node := nodes.Get(i);
        var next := nodes.Get(i + 1);
        if node.y == next.y {
          FuseNext(i, node, next);
          // `--i` and then the loop's `++i`: node `i` is compared with its new neighbour
        } else {
          i := i + 1;
        }
      }
    }

    /**
     * The search loop of `ftgl_texture_atlas_get_region`: the lowest top among
     * the nodes where the rectangle fits, ties going to the narrower node.
     */
    method FindBest(w: nat, h: nat) returns (b: Best)
      requires nodes.Valid() && SkylineValid(nodes.Contents(), width, height)
      ensures b == ScanBest(nodes.Contents(), w, h, width, height, nodes.size)
    {
      ghost var ns := nodes.Contents();
      var bestTop: int := UINT_MAX;
      var bestIndex: int := -1;
      var bestWidth: int := UINT_MAX;
      var rx: int, ry: int := 0, 0;
      var i := 0;
      while i < nodes.size
        invariant i <= nodes.size == |ns|
        invariant Best(bestTop, bestIndex, bestWidth, rx, ry) == ScanBest(ns, w, h, width, height, i)
      {
        var y := Fit(i, w, h);
        if y >= 0 {
          var node := nodes.Get(i);
          if y + h < bestTop || (y + h == bestTop && node.z > 0 && node.z < bestWidth) {
            bestTop, bestIndex, bestWidth := y + h, i, node.z;
            rx, ry := node.x, y;
          }
        }
        i := i + 1;
      }
      b := Best(bestTop, bestIndex, bestWidth, rx, ry);
    }

    /**
     * The shrinking loop of `ftgl_texture_atlas_get_region`: the nodes from
     * `i` on are cut back to the right edge of node `i - 1`, and those left
     * without width are erased.  Index `i` never moves: an erased node is
     * followed by `--i` and the loop's `++i`.
     */
    method ClipFrom(i: nat)
      requires nodes.Valid() && 0 < i <= nodes.size
      modifies nodes, nodes.items
      ensures nodes.Valid() && nodes.items == old(nodes.items)
      ensures nodes.Contents() == old(nodes.Contents())[..i]
                + Clip(old(nodes.Contents())[i - 1].x + old(nodes.Contents())[i - 1].z, old(nodes.Contents())[i..])
    {
      ghost var ns := nodes.Contents();
      ghost var P := ns[i - 1].x + ns[i - 1].z;
      ghost var rest := ns[i..];
      assert ns == ns[..i] + rest;
      var going := true;
      while going && i < nodes.size
        invariant nodes.Valid() && nodes.items == old(nodes.items)
        invariant i <= nodes.size && nodes.Contents() == ns[..i] + rest
        invariant going ==> Clip(P, rest) == Clip(P, ns[i..])
        invariant !going ==> rest == Clip(P, ns[i..])
        decreases going, |rest|
      {
        var erased := TrimHead(nodes, i, ns[..i], rest, P);
        if erased {
          rest := rest[1..];
        } else {
          rest := Clip(P, rest);
          going := false;
        }
      }
    }

    /**
     * The update of the node list in `ftgl_texture_atlas_get_region` once the
     * best node is known: a node for the rectangle's top is inserted at the
     * best index, the nodes after it are cut back, and equal neighbours are
     * merged.  Growing the vector can fail (`insertOk`), leaving it unchanged.
     */
    method RaiseAt(b: Best, w: nat, h: nat, insertOk: bool) returns (ret: ReturnCode)
      requires nodes.Valid() && 0 <= b.index < nodes.size
      modifies nodes, nodes.items
      ensures nodes.Valid() && (nodes.items == old(nodes.items) || fresh(nodes.items))
      ensures ret == if old(nodes.items.Length) <= old(nodes.size) && !insertOk then MemoryError else NoError
      ensures ret != NoError ==> nodes.Contents() == old(nodes.Contents())
      ensures ret == NoError ==> nodes.Contents() == Skyline.Merge(Raise(old(nodes.Contents()), b, w, h))
    {
      ghost var ns := nodes.Contents();
      ret := nodes.Insert(b.index, Node(b.x, b.y + h, w), insertOk);
      if ret == NoError {
        ClipAndMerge(ns, b, w, h);
      }
    }

    /** The clipping and merging that follow the insertion of the rectangle's node at the best index. */
    method ClipAndMerge(ghost ns: seq<Node>, b: Best, w: nat, h: nat)
      requires nodes.Valid() && 0 <= b.index < |ns|
      requires nodes.Contents() == ns[..b.index] + [Node(b.x, b.y + h, w)] + ns[b.index..]
      modifies nodes, nodes.items
      ensures nodes.Valid() && nodes.items == old(nodes.items)
      ensures nodes.Contents() == Skyline.Merge(Raise(ns, b, w, h))
    {
      InsertedThenClipped(ns, b, w, h, nodes.Contents());
      ClipFrom(b.index + 1);
      Merge();
    }

    /**
     * `ftgl_texture_atlas_get_region`: find room for a `w` x `h` rectangle.
     * `nodeAllocOk` and `insertOk` decide the `malloc` of the new node and the
     * growth of the node vector.  The region and the new node list are those
     * of `Skyline.Place`; on any failure the region is `(-1, -1, 0, 0)` and
     * nothing changes.
     */
    method GetRegion(w: nat, h: nat, nodeAllocOk: bool, insertOk: bool) returns (region: Region)
      requires Valid() && w > 0
      modifies this`used, this`modified, this`regions, nodes, nodes.items
      ensures Valid()
      ensures region == if !nodeAllocOk || (!insertOk && old(nodes.items.Length) <= old(nodes.size)) then NoRegion
                        else Place(old(nodes.Contents()), w, h, width, height).0
      ensures region == NoRegion ==>
        nodes.Contents() == old(nodes.Contents()) && used == old(used) && modified == old(modified)
        && regions == old(regions)
      ensures region != NoRegion ==>
        nodes.Contents() == Place(old(nodes.Contents()), w, h, width, height).1
        && used == old(used) + w * h && modified && regions == old(regions) + [region]
    {
      ghost var ns := nodes.Contents();
      var b := FindBest(w, h);
      region := NoRegion;
      if b.index != -1 && nodeAllocOk {
        var ret := RaiseAt(b, w, h, insertOk);
        if ret == NoError {
          region := Record(ns, b, w, h);
        }
      }
    }

    /**
     * The end of a successful `ftgl_texture_atlas_get_region`: the surface of
     * the region is added to `used`, the texture is marked as modified, and the
     * region `(best x, best y, w, h)` is returned.
     */
    method Record(ghost ns: seq<Node>, b: Best, w: nat, h: nat) returns (region: Region)
      requires Shape() && Packed(ns, regions, used, width, height) && w > 0
      requires b == ScanBest(ns, w, h, width, height, |ns|) && b.index != -1
      requires nodes.Contents() == Skyline.Merge(Raise(ns, b, w, h))
      modifies this`used, this`modified, this`regions
      ensures Valid() && region == Place(ns, w, h, width, height).0 && nodes.Contents() == Place(ns, w, h, width, height).1
      ensures used == old(used) + w * h && modified && regions == old(regions) + [region]
    {
      PlacePacked(ns, regions, used, w, h, width, height);
      used := used + w * h;
      modified := true;
      region := Region(b.x, b.y, w, h);
      regions := regions + [region];
    }

    /**
     * `ftgl_texture_atlas_set_region`: copy `h` rows of `w` pixels from `src`,
     * rows `stride` bytes apart, into the texture at `(x, y)`, and flag the
     * texture as modified.  The requirements are the function's debug asserts
     * (the rectangle strictly inside the border) and a source long enough.
     */
    method SetRegion(x: nat, y: nat, w: nat, h: nat, src: seq<bv8>, stride: nat)
      requires data.Length == width * height * depth
      requires 0 < x && 0 < y && x < width - 1 && x + w <= width - 1 && y < height - 1 && y + h <= height - 1
      requires h == 0 || w > 0
      requires SourceLongEnough(|src|, h, w * depth, stride)
      modifies this`modified, data
      ensures modified
      ensures BlitFits(data.Length, width * depth, x * depth, y, w * depth, h)
      ensures data[..] == Blit(old(data[..]), width * depth, x * depth, y, w * depth, h, src, stride)
    {
      RectangleFits(width, height, depth, x, y, w, h);
      ghost var dst := data[..];
      var i := 0;
      while i < h
        invariant i <= h
        invariant data[..] == BlitRows(dst, width * depth, x * depth, y, w * depth, h, src, stride, i)
      {
        CopyRow(dst, x, y, w, h, src, stride, i);
        i := i + 1;
      }
      modified := true;
    }

    /** Row `i` of `set_region`: `w` pixels of the source, from byte `i * stride` on, go to row `y + i` at pixel `x`. */
    method CopyRow(ghost dst: seq<bv8>, x: nat, y: nat, w: nat, h: nat, src: seq<bv8>, stride: nat, i: nat)
      requires data.Length == width * height * depth && |dst| == data.Length && i < h
      requires BlitFits(|dst|, width * depth, x * depth, y, w * depth, h) && SourceLongEnough(|src|, h, w * depth, stride)
      requires data[..] == BlitRows(dst, width * depth, x * depth, y, w * depth, h, src, stride, i)
      modifies data
      ensures data[..] == BlitRows(dst, width * depth, x * depth, y, w * depth, h, src, stride, i + 1)
    {
      var off := ((y + i) * width + x) * depth;
      var so := i * stride;
      RowOffset(width, depth, x, y + i);
      BlitNextRow(dst, width * depth, x * depth, y, w * depth, h, src, stride, i, off, so);
      Memcpy(data, off, src, so, w * depth);
    }

    /**
     * `ftgl_texture_atlas_clear`: back to one node spanning the interior,
     * nothing used, the texture zeroed.  The vector keeps its storage, so
     * pushing the node cannot fail and the result is always `NoError`.
     */
    method Clear() returns (ret: ReturnCode)
      requires Valid()
      modifies this, nodes, nodes.items, data
      ensures Valid() && ret == NoError
      ensures width == old(width) && height == old(height) && data == old(data) && modified == old(modified)
      ensures nodes.Contents() == [Node(1, 1, width - 2)] && used == 0 && regions == []
      ensures data[..] == Zeros(width * height * depth)
    {
      var node := Node(1, 1, width - 2);
      nodes.Clear();
      used := 0;
      regions := [];
      ret := nodes.PushBack(node, false);
      assert nodes.Contents() == [node];
      forall k | 0 <= k < data.Length {
        data[k] := 0;
      }
      assert data[..] == Zeros(width * height * depth);
      InitialPacked(width, height);
    }

    /**
     * `ftgl_texture_atlas_enlarge_texture`: a zeroed `wn` x `hn` texture that
     * receives the old interior at the same place, and, when the atlas grows
     * wider, a node at height 1 over the new columns.  `callocOk` decides the
     * new texture and `pushOk` the growth of the node vector; on either
     * failure the atlas is restored and the result is `MemoryError`.  The
     * requirements are the function's debug asserts.
     */
    method EnlargeTexture(wn: nat, hn: nat, callocOk: bool, pushOk: bool) returns (ret: ReturnCode)
      requires Valid() && wn >= width && hn >= height && wn + hn > width + height
      modifies this`data, this`width, this`height, this`modified, nodes, nodes.items
      ensures Valid()
      ensures ret == (if !callocOk || (wn > old(width) && !pushOk && old(nodes.items.Length) <= old(nodes.size))
                        then MemoryError else NoError)
      ensures ret != NoError ==>
        width == old(width) && height == old(height) && data == old(data) && modified == old(modified)
        && nodes.Contents() == old(nodes.Contents())
      ensures ret == NoError ==>
        width == wn && height == hn && fresh(data) && modified
        && nodes.Contents() == old(nodes.Contents()) + (if wn > old(width) then [Node(old(width) - 1, 1, wn - old(width))] else [])
        && data[..] == Enlarged(old(data[..]), old(width), old(height), depth, wn, hn)
    {
      ret := NoError;
      if !callocOk {
        ret := MemoryError;
      } else {
        // The source allocates and installs the new texture and size before
        // pushing the node and puts the old ones back when the push fails;
        // installing them after a successful push leaves the same state in
        // both cases.
        ret := WidenNodes(wn, hn, pushOk);
        if ret == NoError {
          Install(wn, hn);
        }
      }
    }

    /**
     * The node part of `ftgl_texture_atlas_enlarge_texture`: when the atlas
     * grows wider, a node at height 1 over the new columns is pushed, which
     * can fail (`pushOk`) and then leaves everything as it was.
     */
    method WidenNodes(wn: nat, hn: nat, pushOk: bool) returns (ret: ReturnCode)
      requires Valid() && wn >= width && hn >= height
      modifies nodes, nodes.items
      ensures nodes.Valid() && (nodes.items == old(nodes.items) || fresh(nodes.items))
      ensures ret == (if wn > width && !pushOk && old(nodes.items.Length) <= old(nodes.size) then MemoryError else NoError)
      ensures ret != NoError ==> Valid() && nodes.Contents() == old(nodes.Contents())
      ensures ret == NoError ==>
        nodes.Contents() == old(nodes.Contents()) + (if wn > width then [Node(width - 1, 1, wn - width)] else [])
        && Packed(nodes.Contents(), regions, used, wn, hn)
    {
      ghost var ns := nodes.Contents();
      ret := NoError;
      if wn > width {
        ret := nodes.PushBack(Node(width - 1, 1, wn - width), pushOk);
      }
      WidenPacked(ns, regions, used, width, height, wn, hn);
    }

    /**
     * The successful end of `ftgl_texture_atlas_enlarge_texture`: a zeroed
     * `wn` x `hn` texture replaces the old one, whose interior it receives.
     * The node list already spans the new width.
     */
    method Install(wn: nat, hn: nat)
      requires Shape() && width <= wn && height <= hn && Packed(nodes.Contents(), regions, used, wn, hn)
      modifies this`data, this`width, this`height, this`modified
      ensures Valid() && fresh(data) && width == wn && height == hn && modified
      ensures data[..] == Enlarged(old(data[..]), old(width), old(height), depth, wn, hn)
    {
      var grown := new bv8[wn * hn * depth](_ => 0);
      assert grown[..] == Zeros(wn * hn * depth);
      var dataOld := data;
      var widthOld, heightOld := width, height;
      data := grown;
      width, height := wn, hn;
      MoveInterior(dataOld, widthOld, heightOld);
    }

    /**
     * The last step of `ftgl_texture_atlas_enlarge_texture`: the interior of
     * the old `W` x `H` texture `dataOld` goes to the same place of the new,
     * zeroed one, one `set_region` call reading rows `W` pixels apart from
     * pixel (1, 1) of the old texture on.
     */
    method MoveInterior(dataOld: array<bv8>, W: nat, H: nat)
      requires 3 <= W <= width && 3 <= H <= height && data.Length == width * height * depth
      requires dataOld != data && dataOld.Length == W * H * depth && data[..] == Zeros(width * height * depth)
      modifies this`modified, data
      ensures modified
      ensures data[..] == Enlarged(old(dataOld[..]), W, H, depth, width, height)
    {
      ghost var before := dataOld[..];
      var pixelSize := depth;
      var oldRowSize: nat := W * pixelSize;
      EnlargedIs(before, W, H, depth, width, height);
      var start := oldRowSize + pixelSize;
      SetRegion(1, 1, W - 2, H - 2, dataOld[start..], oldRowSize);
    }

    /**
     * `ftgl_texture_atlas_special`: reserve a 5 x 5 region and paint a 4 x 4
     * white square into it, for the glyph that draws solid lines.  The region
     * is taken before the glyph is allocated (`glyphOk`), so a failed glyph
     * allocation still leaves the region taken; a missing region is
     * `AtlasFullError`.
     */
    method Special(nodeAllocOk: bool, insertOk: bool, glyphOk: bool) returns (ret: ReturnCode)
      requires Valid()
      modifies this`used, this`modified, this`regions, nodes, nodes.items, data
      ensures Valid()
      ensures var r := if !nodeAllocOk || (!insertOk && old(nodes.items.Length) <= old(nodes.size)) then NoRegion
                       else Place(old(nodes.Contents()), 5, 5, width, height).0;
        && ret == (if !glyphOk then MemoryError else if r == NoRegion then AtlasFullError else NoError)
        && (r == NoRegion ==> nodes.Contents() == old(nodes.Contents()) && used == old(used) && regions == old(regions))
        && (r != NoRegion ==> nodes.Contents() == Place(old(nodes.Contents()), 5, 5, width, height).1
                              && used == old(used) + 25 && regions == old(regions) + [r])
        && (ret == NoError ==> modified && BlitFits(data.Length, width * depth, r.x * depth, r.y, 4 * depth, 4)
                               && data[..] == Blit(old(data[..]), width * depth, r.x * depth, r.y, 4 * depth, 4, WhiteSquare, 0))
        && (ret != NoError ==> data[..] == old(data[..]))
    {
      ghost var before := data[..];
      var region := GetRegion(5, 5, nodeAllocOk, insertOk);
      assert data[..] == before;
      if !glyphOk {
        ret := MemoryError;
      } else if region.x < 0 {
        ret := AtlasFullError;
      } else {
        assert InInterior(regions[|regions| - 1], width, height);
        SetRegion(region.x, region.y, 4, 4, WhiteSquare, 0);
        ret := NoError;
      }
    }
  }

  /**
   * `ftgl_texture_atlas_create`: a `w` x `h` atlas of depth `d` with the
   * special region taken.  `allocOk` decides the allocations of the atlas,
   * its node vector and its texture, `specialOk` those of `special`.  Only an
   * atlas of at least 7 x 7 pixels has room for the 5 x 5 special region
   * inside its border; a smaller one, or any failed allocation, gives `null`.
   */
  method Create(w: nat, h: nat, d: nat, allocOk: bool, specialOk: bool) returns (atlas: Atlas?)
    requires 3 <= w && 3 <= h && d in {1, 3, 4}
    ensures atlas == null <==> !allocOk || !specialOk || w < 7 || h < 7
    ensures atlas != null ==>
      fresh(atlas) && atlas.Valid() && atlas.width == w && atlas.height == h && atlas.depth == d
      && atlas.modified && atlas.used == 25 && atlas.regions == [Region(1, 1, 5, 5)]
      && atlas.nodes.Contents() == Place([Node(1, 1, w - 2)], 5, 5, w, h).1
      && BlitFits(w * h * d, w * d, 1 * d, 1, 4 * d, 4)
      && atlas.data[..] == Blit(Zeros(w * h * d), w * d, 1 * d, 1, 4 * d, 4, WhiteSquare, 0)
  {
    if !allocOk {
      return null;
    }
    atlas := new Atlas(w, h, d);
    FirstPlacement(w, h);
    var ret := atlas.Special(specialOk, specialOk, specialOk);
    if ret != NoError {
      return null;
    }
  }
}
