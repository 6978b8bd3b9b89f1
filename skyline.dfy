/**
 * The skyline packing rule of the texture atlas, on values.
 *
 * An atlas `W` columns wide and `H` rows high keeps a one-pixel border free;
 * its interior columns `[1, W-1)` are tiled, left to right, by nodes
 * `(x, y, z)`: the `z` columns from `x` on are free from row `y` upwards.
 * `SkyAt(ns, c)` is that height at column `c`.  The functions below state
 * what one `get_region` call does to the node list; the atlas methods are
 * proved to compute exactly these functions.
 */
module Skyline {

  /** A skyline node `(x, y, z)`: the columns `[x, x+z)` are free from row `y` on. */
  datatype Node = Node(x: int, y: int, z: int)

  /** A rectangle `(x, y, w, h)` of the atlas (the C `ivec4_t` region). */
  datatype Region = Region(x: int, y: int, w: int, h: int)

  /** The region `get_region` reports when it cannot place a rectangle. */
  const NoRegion: Region := Region(-1, -1, 0, 0)

  /** `UINT_MAX`, the initial best top and best width of the candidate scan. */
  const UINT_MAX: int := 0xFFFF_FFFF

  // ---------------------------------------------------------------------------
  // Node lists

  /** Each node starts where the previous one ends, from column `a` to column `e`. */
  ghost predicate Tiles(ns: seq<Node>, a: int, e: int)
    decreases |ns|
  {
    if ns == [] then a == e else ns[0].x == a && Tiles(ns[1..], a + ns[0].z, e)
  }

  ghost predicate Positive(ns: seq<Node>)
  {
    forall k :: 0 <= k < |ns| ==> ns[k].z > 0
  }

  ghost predicate Bounded(ns: seq<Node>, H: int)
  {
    forall k :: 0 <= k < |ns| ==> 1 <= ns[k].y <= H - 1
  }

  /**
   * The node-list invariant: the nodes tile the interior columns `[1, W-1)`,
   * sorted by `x`, with positive widths, each height inside `[1, H-1]`.
   */
  ghost predicate SkylineValid(ns: seq<Node>, W: int, H: int)
  {
    Tiles(ns, 1, W - 1) && Positive(ns) && Bounded(ns, H)
  }

  /** After `merge`: no two neighbouring nodes have the same height. */
  ghost predicate NoEqualNeighbours(ns: seq<Node>)
  {
    forall k :: 0 <= k < |ns| - 1 ==> ns[k].y != ns[k + 1].y
  }

  /** Some node of `ns` spans column `c`. */
  ghost predicate Covers(ns: seq<Node>, c: int)
    decreases |ns|
  {
    ns != [] && (ns[0].x <= c < ns[0].x + ns[0].z || Covers(ns[1..], c))
  }

  /** The skyline height at column `c`: that of the first node spanning `c`, 0 if none. */
  ghost function SkyAt(ns: seq<Node>, c: int): int
    decreases |ns|
  {
    if ns == [] then 0
    else if ns[0].x <= c < ns[0].x + ns[0].z then ns[0].y
    else SkyAt(ns[1..], c)
  }

  lemma {:induction false} SkyAtConcat(p: seq<Node>, q: seq<Node>, c: int)
    ensures Covers(p + q, c) == (Covers(p, c) || Covers(q, c))
    ensures SkyAt(p + q, c) == if Covers(p, c) then SkyAt(p, c) else SkyAt(q, c)
    decreases |p|
  {
    if p == [] {
      assert p + q == q;
    } else {
      assert (p + q)[1..] == p[1..] + q;
      SkyAtConcat(p[1..], q, c);
    }
  }

  /** Tiling nodes span exactly the columns they tile. */
  lemma {:induction false} TilesCovers(ns: seq<Node>, a: int, e: int, c: int)
    requires Tiles(ns, a, e) && Positive(ns)
    ensures a <= e
    ensures Covers(ns, c) <==> a <= c < e
    decreases |ns|
  {
    if ns != [] {
      assert Positive(ns[1..]) by {
        forall k | 0 <= k < |ns[1..]| ensures ns[1..][k].z > 0 { assert ns[1..][k] == ns[k + 1]; }
      }
      TilesCovers(ns[1..], a + ns[0].z, e, c);
    }
  }

  lemma {:induction false} TilesAppend(p: seq<Node>, q: seq<Node>, a: int, m: int, e: int)
    requires Tiles(p, a, m) && Tiles(q, m, e)
    ensures Tiles(p + q, a, e)
    decreases |p|
  {
    if p == [] {
      assert p + q == q;
    } else {
      assert (p + q)[1..] == p[1..] + q;
      TilesAppend(p[1..], q, a + p[0].z, m, e);
    }
  }

  /** A tiling splits at any node into a tiling up to that node's column and one from it. */
  lemma {:induction false} TilesSplit(ns: seq<Node>, a: int, e: int, i: nat)
    requires Tiles(ns, a, e) && i < |ns|
    ensures Tiles(ns[..i], a, ns[i].x) && Tiles(ns[i..], ns[i].x, e)
    decreases i
  {
    if i > 0 {
      TilesSplit(ns[1..], a + ns[0].z, e, i - 1);
      assert ns[1..][i - 1] == ns[i];
      assert ns[1..][i - 1..] == ns[i..];
      assert ns[..i][1..] == ns[1..][..i - 1];
    }
  }

  lemma PositiveSlice(ns: seq<Node>, i: nat, j: nat)
    requires Positive(ns) && i <= j <= |ns|
    ensures Positive(ns[i..j])
  {
    forall k | 0 <= k < j - i ensures ns[i..j][k].z > 0 { assert ns[i..j][k] == ns[i + k]; }
  }

  lemma BoundedSlice(ns: seq<Node>, H: int, i: nat, j: nat)
    requires Bounded(ns, H) && i <= j <= |ns|
    ensures Bounded(ns[i..j], H)
  {
    forall k | 0 <= k < j - i ensures 1 <= ns[i..j][k].y <= H - 1 { assert ns[i..j][k] == ns[i + k]; }
  }

  /** On a tiling, columns at or right of node `i` see the suffix from `i`. */
  lemma SkyAtSuffix(ns: seq<Node>, a: int, e: int, i: nat, c: int)
    requires Tiles(ns, a, e) && Positive(ns) && i < |ns| && c >= ns[i].x
    ensures SkyAt(ns, c) == SkyAt(ns[i..], c)
    ensures Covers(ns, c) == Covers(ns[i..], c)
  {
    TilesSplit(ns, a, e, i);
    PositiveSlice(ns, 0, i);
    TilesCovers(ns[..i], a, ns[i].x, c);
    assert ns == ns[..i] + ns[i..];
    SkyAtConcat(ns[..i], ns[i..], c);
  }

  /** On a tiling, every spanned column has the height of some node, within the bounds. */
  lemma {:induction false} SkyAtBounded(ns: seq<Node>, a: int, e: int, H: int, c: int)
    requires Tiles(ns, a, e) && Positive(ns) && Bounded(ns, H) && a <= c < e
    ensures 1 <= SkyAt(ns, c) <= H - 1
    decreases |ns|
  {
    if !(ns[0].x <= c < ns[0].x + ns[0].z) {
      PositiveSlice(ns, 1, |ns|);
      BoundedSlice(ns, H, 1, |ns|);
      SkyAtBounded(ns[1..], a + ns[0].z, e, H, c);
    }
  }

  // ---------------------------------------------------------------------------
  // ftgl_texture_atlas_fit

  /**
   * The loop of `fit` from some node on: `left` columns still to span, `y` the
   * running maximum height.  Running out of nodes cannot happen on a tiling.
   */
  ghost function FitScan(ns: seq<Node>, left: int, y: int, h: int, H: int): int
    decreases |ns|
  {
    if left <= 0 then y
    else if ns == [] then -1
    else
      var y' := if ns[0].y > y then ns[0].y else y;
      if y' + h > H - 1 then -1 else FitScan(ns[1..], left - ns[0].z, y', h, H)
  }

  /** `fit(i, w, h)`: the row at which a `w` x `h` rectangle starting at node `i` would sit, or -1. */
  ghost function Fit(ns: seq<Node>, i: nat, w: int, h: int, W: int, H: int): int
    requires i < |ns|
  {
    if ns[i].x + w > W - 1 then -1 else FitScan(ns[i..], w, ns[i].y, h, H)
  }

  /** Every column of `[a, b)` leaves room for `h` rows below the top border. */
  ghost predicate SpanFits(ns: seq<Node>, a: int, b: int, h: int, H: int)
  {
    forall c :: a <= c < b ==> SkyAt(ns, c) + h <= H - 1
  }

  /** The skyline is at most `y` over `[a, b)`. */
  ghost predicate SpanBelow(ns: seq<Node>, a: int, b: int, y: int)
  {
    forall c :: a <= c < b ==> SkyAt(ns, c) <= y
  }

  /** The skyline reaches `y` somewhere in `[a, b)`. */
  ghost predicate SpanReaches(ns: seq<Node>, a: int, b: int, y: int)
  {
    exists c :: a <= c < b && SkyAt(ns, c) == y
  }

  /** The scan takes the maximum height over the spanned columns and checks it against the top border. */
  lemma {:induction false} FitScanSky(ns: seq<Node>, s: int, e: int, left: int, y: int, h: int, H: int)
    requires Tiles(ns, s, e) && Positive(ns) && 0 < left && s + left <= e && 0 <= y
    ensures var r := FitScan(ns, left, y, h, H);
      (r != -1 <==> y + h <= H - 1 && SpanFits(ns, s, s + left, h, H))
      && (r != -1 ==> r >= y && SpanBelow(ns, s, s + left, r) && (r == y || SpanReaches(ns, s, s + left, r)))
    decreases |ns|
  {
    if ns == [] {
      assert false;
    }
    var n0 := ns[0];
    assert n0.z > 0;
    var y' := if n0.y > y then n0.y else y;
    var r := FitScan(ns, left, y, h, H);
    assert SkyAt(ns, s) == n0.y;
    forall c | s <= c < s + n0.z ensures SkyAt(ns, c) == n0.y { }
    if y' + h > H - 1 {
      assert r == -1;
      if y + h <= H - 1 {
        assert SkyAt(ns, s) + h > H - 1;
      }
    } else if left - n0.z <= 0 {
      assert r == FitScan(ns[1..], left - n0.z, y', h, H);
      assert r == y';
      if r != y {
        assert SkyAt(ns, s) == r;
      }
    } else {
      var s', left' := s + n0.z, left - n0.z;
      PositiveSlice(ns, 1, |ns|);
      FitScanSky(ns[1..], s', e, left', y', h, H);
      assert r == FitScan(ns[1..], left', y', h, H);
      forall c | s' <= c ensures SkyAt(ns, c) == SkyAt(ns[1..], c) { }
      if r != -1 {
        forall c | s <= c < s + left ensures SkyAt(ns, c) + h <= H - 1 && SkyAt(ns, c) <= r {
          if c >= s' {
            assert SkyAt(ns[1..], c) + h <= H - 1 && SkyAt(ns[1..], c) <= r;
          }
        }
        if r != y' {
          var c :| s' <= c < s' + left' && SkyAt(ns[1..], c) == r;
          assert SkyAt(ns, c) == r;
        } else if r != y {
          assert SkyAt(ns, s) == r;
        }
      }
    }
  }

  /**
   * `fit` accepts node `i` exactly when the rectangle stays inside the
   * right and top borders over every column it spans, and then returns the
   * maximum skyline height over those columns.
   */
  lemma FitSky(ns: seq<Node>, i: nat, w: int, h: int, W: int, H: int)
    requires SkylineValid(ns, W, H) && i < |ns| && w > 0
    ensures var f := Fit(ns, i, w, h, W, H); var X := ns[i].x;
      (f != -1 <==> X + w <= W - 1 && SpanFits(ns, X, X + w, h, H))
      && (f != -1 ==> 1 <= X && 1 <= f && f + h <= H - 1
                      && SpanBelow(ns, X, X + w, f) && SpanReaches(ns, X, X + w, f))
  {
    var X := ns[i].x;
    TilesSplit(ns, 1, W - 1, i);
    PositiveSlice(ns, i, |ns|);
    PositiveSlice(ns, 0, i);
    TilesCovers(ns[..i], 1, X, X);
    forall c | X <= c ensures SkyAt(ns, c) == SkyAt(ns[i..], c) {
      SkyAtSuffix(ns, 1, W - 1, i, c);
    }
    assert SkyAt(ns, X) == ns[i].y;
    if X + w <= W - 1 {
      FitScanSky(ns[i..], X, W - 1, w, ns[i].y, h, H);
      var f := Fit(ns, i, w, h, W, H);
      assert f == FitScan(ns[i..], w, ns[i].y, h, H);
      if f != -1 {
        forall c | X <= c < X + w ensures SkyAt(ns, c) + h <= H - 1 && SkyAt(ns, c) <= f {
          assert SkyAt(ns[i..], c) + h <= H - 1 && SkyAt(ns[i..], c) <= f;
        }
        if f != ns[i].y {
          var c :| X <= c < X + w && SkyAt(ns[i..], c) == f;
          assert SkyAt(ns, c) == f;
        }
        assert 1 <= ns[i].y;
      }
    }
  }

  // ---------------------------------------------------------------------------
  // The candidate scan of ftgl_texture_atlas_get_region

  /** The scan's state: best top `y + h`, best node index and width, and the region corner so far. */
  datatype Best = Best(top: int, index: int, width: int, x: int, y: int)

  /** The scan before any node: `best_height = best_width = UINT_MAX`, `best_index = -1`, region at (0, 0). */
  const NoBest: Best := Best(UINT_MAX, -1, UINT_MAX, 0, 0)

  /**
   * The scan over nodes `[0, n)`: node `i` replaces the best when it fits with a
   * lower top, or with an equal top and a positive width below the best width.
   */
  ghost function ScanBest(ns: seq<Node>, w: int, h: int, W: int, H: int, n: nat): (b: Best)
    requires n <= |ns|
    ensures -1 <= b.index < n
    decreases n
  {
    if n == 0 then NoBest
    else
      var b := ScanBest(ns, w, h, W, H, n - 1);
      var y := Fit(ns, n - 1, w, h, W, H);
      var node := ns[n - 1];
      if y >= 0 && (y + h < b.top || (y + h == b.top && node.z > 0 && node.z < b.width))
      then Best(y + h, n - 1, node.z, node.x, y)
      else b
  }

  /** Every fitting candidate's top is below `UINT_MAX` (so the scan's start value never wins). */
  ghost predicate TopsBelowMax(ns: seq<Node>, w: int, h: int, W: int, H: int)
  {
    forall j :: 0 <= j < |ns| && Fit(ns, j, w, h, W, H) >= 0 ==> Fit(ns, j, w, h, W, H) + h < UINT_MAX
  }

  /**
   * The scan picks a fitting node with the lowest top; among equal tops, the
   * narrowest node, and the earliest of equally narrow ones.  It reports none
   * exactly when no node fits.
   */
  lemma ScanBestChoice(ns: seq<Node>, w: int, h: int, W: int, H: int, n: nat)
    requires n <= |ns| && Positive(ns) && TopsBelowMax(ns, w, h, W, H)
    ensures var b := ScanBest(ns, w, h, W, H, n);
      (b.index == -1 <==> forall j :: 0 <= j < n ==> Fit(ns, j, w, h, W, H) < 0)
      && (b.index == -1 ==> b == NoBest)
      && (b.index != -1 ==>
            0 <= b.index < n && b.y == Fit(ns, b.index, w, h, W, H) && b.y >= 0 && b.top == b.y + h
            && b.x == ns[b.index].x && b.width == ns[b.index].z
            && (forall j :: 0 <= j < n && Fit(ns, j, w, h, W, H) >= 0 ==> b.top <= Fit(ns, j, w, h, W, H) + h)
            && (forall j :: 0 <= j < b.index && Fit(ns, j, w, h, W, H) >= 0 && Fit(ns, j, w, h, W, H) + h == b.top
                  ==> b.width < ns[j].z)
            && (forall j :: b.index < j < n && Fit(ns, j, w, h, W, H) >= 0 && Fit(ns, j, w, h, W, H) + h == b.top
                  ==> b.width <= ns[j].z))
  {
    ScanBestNone(ns, w, h, W, H, n);
    ScanBestFields(ns, w, h, W, H, n);
    ScanBestLowest(ns, w, h, W, H, n);
    ScanBestTies(ns, w, h, W, H, n);
  }

  /** The scan reports none exactly when no node fits, and then the record is still the initial one. */
  lemma {:induction false} ScanBestNone(ns: seq<Node>, w: int, h: int, W: int, H: int, n: nat)
    requires n <= |ns| && TopsBelowMax(ns, w, h, W, H)
    ensures var b := ScanBest(ns, w, h, W, H, n);
      (b.index == -1 <==> forall j :: 0 <= j < n ==> Fit(ns, j, w, h, W, H) < 0)
      && (b.index == -1 ==> b == NoBest)
    decreases n
  {
    if n > 0 {
      ScanBestNone(ns, w, h, W, H, n - 1);
      var f := Fit(ns, n - 1, w, h, W, H);
      if f >= 0 {
        assert f + h < UINT_MAX;
      }
    }
  }

  /** A picked node fits, and the record holds its corner, width and top. */
  lemma {:induction false} ScanBestFields(ns: seq<Node>, w: int, h: int, W: int, H: int, n: nat)
    requires n <= |ns|
    ensures var b := ScanBest(ns, w, h, W, H, n);
      b.index != -1 ==>
        0 <= b.index < n && b.y == Fit(ns, b.index, w, h, W, H) && b.y >= 0 && b.top == b.y + h
        && b.x == ns[b.index].x && b.width == ns[b.index].z
    decreases n
  {
    if n > 0 {
      ScanBestFields(ns, w, h, W, H, n - 1);
    }
  }

  /** No fitting node has a lower top than the picked one. */
  lemma {:induction false} ScanBestLowest(ns: seq<Node>, w: int, h: int, W: int, H: int, n: nat)
    requires n <= |ns| && TopsBelowMax(ns, w, h, W, H)
    ensures var b := ScanBest(ns, w, h, W, H, n);
      b.index != -1 ==> forall j :: 0 <= j < n && Fit(ns, j, w, h, W, H) >= 0 ==> b.top <= Fit(ns, j, w, h, W, H) + h
    decreases n
  {
    if n > 0 {
      ScanBestLowest(ns, w, h, W, H, n - 1);
      ScanBestNone(ns, w, h, W, H, n - 1);
      var f := Fit(ns, n - 1, w, h, W, H);
      if f >= 0 {
        assert f + h < UINT_MAX;
      }
    }
  }

  /** Among fitting nodes of the same top, the picked one is strictly narrower than those before it and no wider than those after. */
  lemma ScanBestTies(ns: seq<Node>, w: int, h: int, W: int, H: int, n: nat)
    requires n <= |ns| && Positive(ns) && TopsBelowMax(ns, w, h, W, H)
    ensures var b := ScanBest(ns, w, h, W, H, n);
      b.index != -1 ==>
        (forall j :: 0 <= j < b.index && Fit(ns, j, w, h, W, H) >= 0 && Fit(ns, j, w, h, W, H) + h == b.top
           ==> b.width < ns[j].z)
        && (forall j :: b.index < j < n && Fit(ns, j, w, h, W, H) >= 0 && Fit(ns, j, w, h, W, H) + h == b.top
              ==> b.width <= ns[j].z)
  {
    ScanBestTiesBefore(ns, w, h, W, H, n);
    ScanBestTiesAfter(ns, w, h, W, H, n);
  }

  /** A fitting node after the picked one with the same top is at least as wide: the scan keeps the earlier node. */
  lemma {:induction false} ScanBestTiesAfter(ns: seq<Node>, w: int, h: int, W: int, H: int, n: nat)
    requires n <= |ns| && Positive(ns)
    ensures var b := ScanBest(ns, w, h, W, H, n);
      b.index != -1 ==>
        forall j :: b.index < j < n && Fit(ns, j, w, h, W, H) >= 0 && Fit(ns, j, w, h, W, H) + h == b.top
          ==> b.width <= ns[j].z
    decreases n
  {
    if n > 0 {
      ScanBestTiesAfter(ns, w, h, W, H, n - 1);
      assert ns[n - 1].z > 0;
    }
  }

  /** A fitting node before the picked one with the same top is wider: the scan moves only to a narrower node. */
  lemma {:induction false} ScanBestTiesBefore(ns: seq<Node>, w: int, h: int, W: int, H: int, n: nat)
    requires n <= |ns| && Positive(ns) && TopsBelowMax(ns, w, h, W, H)
    ensures var b := ScanBest(ns, w, h, W, H, n);
      b.index != -1 ==>
        forall j :: 0 <= j < b.index && Fit(ns, j, w, h, W, H) >= 0 && Fit(ns, j, w, h, W, H) + h == b.top
          ==> b.width < ns[j].z
    decreases n, 1
  {
    if n > 0 {
      ScanBestTiesBefore(ns, w, h, W, H, n - 1);
      var b := ScanBest(ns, w, h, W, H, n - 1);
      var y := Fit(ns, n - 1, w, h, W, H);
      if y >= 0 && (y + h < b.top || (y + h == b.top && ns[n - 1].z > 0 && ns[n - 1].z < b.width)) {
        if b.index == -1 {
          ScanBestNone(ns, w, h, W, H, n - 1);
        } else {
          ScanBestTiesBeforeNew(ns, w, h, W, H, n);
        }
      }
    }
  }

  /** The step of `ScanBestTiesBefore` where node `n - 1` replaces an earlier best. */
  lemma {:induction false} ScanBestTiesBeforeNew(ns: seq<Node>, w: int, h: int, W: int, H: int, n: nat)
    requires 0 < n <= |ns| && Positive(ns) && TopsBelowMax(ns, w, h, W, H)
    requires var b := ScanBest(ns, w, h, W, H, n - 1); var y := Fit(ns, n - 1, w, h, W, H);
      b.index != -1 && y >= 0 && (y + h < b.top || (y + h == b.top && ns[n - 1].z < b.width))
    ensures forall j :: 0 <= j < n - 1 && Fit(ns, j, w, h, W, H) >= 0 && Fit(ns, j, w, h, W, H) + h == Fit(ns, n - 1, w, h, W, H) + h
                 ==> ns[n - 1].z < ns[j].z
    decreases n, 0
  {
    ScanBestTiesBefore(ns, w, h, W, H, n - 1);
    ScanBestTiesAfter(ns, w, h, W, H, n - 1);
    ScanBestLowest(ns, w, h, W, H, n - 1);
    ScanBestFields(ns, w, h, W, H, n - 1);
  }

  // ---------------------------------------------------------------------------
  // Raising the skyline

  /**
   * The clipping loop of `get_region`: nodes that start left of column `P`
   * (the right edge of the inserted node) are shrunk to start at `P`, and
   * dropped when nothing is left of them; the first one that keeps a
   * positive width, or starts at or after `P`, ends the loop.
   */
  ghost function Clip(P: int, rest: seq<Node>): seq<Node>
    decreases |rest|
  {
    if rest == [] then []
    else
      var n := rest[0];
      if n.x < P then
        var shrink := P - n.x;
        var n' := Node(n.x + shrink, n.y, n.z - shrink);
        if n'.z <= 0 then Clip(P, rest[1..]) else [n'] + rest[1..]
      else rest
  }

  /** Clipping a tiling of `[s, e)` at `P` gives a tiling of `[P, e)`. */
  lemma {:induction false} ClipTiles(P: int, rest: seq<Node>, s: int, e: int, H: int)
    requires Tiles(rest, s, e) && Positive(rest) && Bounded(rest, H) && s <= P <= e
    ensures Tiles(Clip(P, rest), P, e) && Positive(Clip(P, rest)) && Bounded(Clip(P, rest), H)
    decreases |rest|
  {
    if rest != [] {
      var n := rest[0];
      assert n.z > 0;
      PositiveSlice(rest, 1, |rest|);
      BoundedSlice(rest, H, 1, |rest|);
      if n.x < P {
        var n' := Node(P, n.y, n.z - (P - n.x));
        if n'.z <= 0 {
          ClipTiles(P, rest[1..], s + n.z, e, H);
        } else {
          var C := [n'] + rest[1..];
          assert C == Clip(P, rest);
          assert C[1..] == rest[1..];
          assert Tiles(C, P, e);
        }
      }
    }
  }

  /** Clipping at `P` keeps the skyline from column `P` on. */
  lemma {:induction false} ClipSky(P: int, rest: seq<Node>, c: int)
    requires P <= c
    ensures SkyAt(Clip(P, rest), c) == SkyAt(rest, c)
    decreases |rest|
  {
    if rest != [] {
      var n := rest[0];
      if n.x < P {
        var n' := Node(P, n.y, n.z - (P - n.x));
        if n'.z <= 0 {
          ClipSky(P, rest[1..], c);
        } else {
          assert ([n'] + rest[1..])[1..] == rest[1..];
        }
      }
    }
  }

  /** One step of `merge`: node `i` absorbs node `i + 1`, which has the same height. */
  ghost function MergeAt(ns: seq<Node>, i: nat): seq<Node>
    requires i + 1 < |ns|
  {
    ns[..i] + [Node(ns[i].x, ns[i].y, ns[i].z + ns[i + 1].z)] + ns[i + 2..]
  }

  /** The `merge` loop from index `i` on. */
  ghost function MergeFrom(ns: seq<Node>, i: nat): seq<Node>
    requires i <= |ns|
    decreases |ns| - i
  {
    if i + 1 >= |ns| then ns
    else if ns[i].y == ns[i + 1].y then MergeFrom(MergeAt(ns, i), i)
    else MergeFrom(ns, i + 1)
  }

  /** `ftgl_texture_atlas_merge`. */
  ghost function Merge(ns: seq<Node>): seq<Node>
  {
    MergeFrom(ns, 0)
  }

  /** The sequences a merge step is made of, grouped as the tiling and skyline lemmas take them. */
  lemma MergeAtIs(ns: seq<Node>, i: nat)
    requires i + 1 < |ns|
    ensures var M, T := Node(ns[i].x, ns[i].y, ns[i].z + ns[i + 1].z), ns[i + 2..];
      MergeAt(ns, i) == ns[..i] + ([M] + T) && ns == ns[..i] + ns[i..]
      && ns[i..][0] == ns[i] && ns[i..][1..] == [ns[i + 1]] + T && ([ns[i + 1]] + T)[1..] == T && ([M] + T)[1..] == T
  {
    assert ns[i..][1..] == [ns[i + 1]] + ns[i + 2..];
  }

  /** A merge step keeps the tiling, the widths positive, the heights and the skyline. */
  lemma MergeAtKeeps(ns: seq<Node>, i: nat, a: int, e: int, H: int)
    requires i + 1 < |ns| && ns[i].y == ns[i + 1].y
    requires Tiles(ns, a, e) && Positive(ns) && Bounded(ns, H)
    ensures var m := MergeAt(ns, i);
      Tiles(m, a, e) && Positive(m) && Bounded(m, H) && |m| == |ns| - 1
      && m[..i] == ns[..i] && m[i].y == ns[i].y
      && forall c :: SkyAt(m, c) == SkyAt(ns, c)
  {
    var m := MergeAt(ns, i);
    var M := Node(ns[i].x, ns[i].y, ns[i].z + ns[i + 1].z);
    var T := ns[i + 2..];
    var tail := ns[i..];
    MergeAtIs(ns, i);
    TilesSplit(ns, a, e, i);
    assert Tiles(T, ns[i].x + ns[i].z + ns[i + 1].z, e);
    assert Tiles([M] + T, ns[i].x, e);
    TilesAppend(ns[..i], [M] + T, a, ns[i].x, e);
    forall c ensures SkyAt(m, c) == SkyAt(ns, c) {
      SkyAtConcat(ns[..i], [M] + T, c);
      SkyAtConcat(ns[..i], tail, c);
    }
    forall k | 0 <= k < |m| ensures m[k].z > 0 && 1 <= m[k].y <= H - 1 {
      if k < i {
        assert m[k] == ns[k];
      } else if k > i {
        assert m[k] == ns[k + 1];
      }
    }
  }

  /**
   * `merge` keeps the tiling and the skyline, and afterwards no two
   * neighbouring nodes have the same height.
   */
  lemma {:induction false} MergeFromKeeps(ns: seq<Node>, i: nat, a: int, e: int, H: int)
    requires i < |ns| && Tiles(ns, a, e) && Positive(ns) && Bounded(ns, H)
    requires forall k :: 0 <= k < i ==> ns[k].y != ns[k + 1].y
    ensures var r := MergeFrom(ns, i);
      Tiles(r, a, e) && Positive(r) && Bounded(r, H) && NoEqualNeighbours(r)
      && forall c :: SkyAt(r, c) == SkyAt(ns, c)
    decreases |ns| - i
  {
    if i + 1 < |ns| {
      if ns[i].y == ns[i + 1].y {
        var m := MergeAt(ns, i);
        MergeAtKeeps(ns, i, a, e, H);
        forall k | 0 <= k < i ensures m[k].y != m[k + 1].y {
          assert m[k] == ns[k];
          if k + 1 < i {
            assert m[k + 1] == ns[k + 1];
          }
        }
        MergeFromKeeps(m, i, a, e, H);
      } else {
        MergeFromKeeps(ns, i + 1, a, e, H);
      }
    }
  }

  lemma MergeKeeps(ns: seq<Node>, W: int, H: int)
    requires SkylineValid(ns, W, H) && |ns| > 0
    ensures SkylineValid(Merge(ns), W, H) && NoEqualNeighbours(Merge(ns))
    ensures forall c :: SkyAt(Merge(ns), c) == SkyAt(ns, c)
  {
    MergeFromKeeps(ns, 0, 1, W - 1, H);
  }

  /** Columns no node spans have height 0. */
  lemma {:induction false} SkyAtUncovered(ns: seq<Node>, c: int)
    requires !Covers(ns, c)
    ensures SkyAt(ns, c) == 0
    decreases |ns|
  {
    if ns != [] {
      SkyAtUncovered(ns[1..], c);
    }
  }

  // ---------------------------------------------------------------------------
  // ftgl_texture_atlas_get_region

  /** The node list after the raised node is inserted at the chosen index and the nodes after it are clipped. */
  ghost function Raise(ns: seq<Node>, b: Best, w: int, h: int): seq<Node>
    requires 0 <= b.index < |ns|
  {
    ns[..b.index] + [Node(b.x, b.y + h, w)] + Clip(b.x + w, ns[b.index..])
  }

  /**
   * One `get_region(w, h)` call on node list `ns`, when every allocation
   * succeeds: the region handed out and the new node list.
   */
  ghost function Place(ns: seq<Node>, w: int, h: int, W: int, H: int): (Region, seq<Node>)
  {
    var b := ScanBest(ns, w, h, W, H, |ns|);
    if b.index == -1 then (NoRegion, ns)
    else (Region(b.x, b.y, w, h), Merge(Raise(ns, b, w, h)))
  }

  /** A fitting candidate's top is at most `H - 1`, hence below `UINT_MAX` on atlases up to `UINT_MAX` rows. */
  lemma TopsBelowMaxOn(ns: seq<Node>, w: int, h: int, W: int, H: int)
    requires SkylineValid(ns, W, H) && w > 0 && H <= UINT_MAX
    ensures TopsBelowMax(ns, w, h, W, H)
    ensures forall j :: 0 <= j < |ns| ==> (Fit(ns, j, w, h, W, H) >= 0 <==> Fit(ns, j, w, h, W, H) != -1)
  {
    forall j | 0 <= j < |ns| ensures Fit(ns, j, w, h, W, H) >= 0 <==> Fit(ns, j, w, h, W, H) != -1
      ensures Fit(ns, j, w, h, W, H) >= 0 ==> Fit(ns, j, w, h, W, H) + h < UINT_MAX
    {
      FitSky(ns, j, w, h, W, H);
    }
  }

  /**
   * `get_region` fails exactly when no node can start the rectangle, i.e. for
   * every node the rectangle would cross the right border or, over some
   * column it spans, the top border; the node list is then unchanged.
   */
  lemma PlaceFails(ns: seq<Node>, w: int, h: int, W: int, H: int)
    requires SkylineValid(ns, W, H) && w > 0 && H <= UINT_MAX
    ensures var (r, ns') := Place(ns, w, h, W, H);
      (r == NoRegion <==>
         forall j :: 0 <= j < |ns| ==> !(ns[j].x + w <= W - 1 && SpanFits(ns, ns[j].x, ns[j].x + w, h, H)))
      && (r == NoRegion ==> ns' == ns)
  {
    TopsBelowMaxOn(ns, w, h, W, H);
    ScanBestChoice(ns, w, h, W, H, |ns|);
    forall j | 0 <= j < |ns|
      ensures Fit(ns, j, w, h, W, H) >= 0 <==> (ns[j].x + w <= W - 1 && SpanFits(ns, ns[j].x, ns[j].x + w, h, H))
    {
      FitSky(ns, j, w, h, W, H);
    }
  }

  /**
   * On success the region starts at the chosen node, at the maximum skyline
   * height over its columns, inside the border, and no other node offers a
   * lower top (ties: see ScanBestChoice).
   */
  lemma PlaceRegion(ns: seq<Node>, w: int, h: int, W: int, H: int)
    requires SkylineValid(ns, W, H) && w > 0 && h >= 0
    ensures var (r, _) := Place(ns, w, h, W, H); var b := ScanBest(ns, w, h, W, H, |ns|);
      r != NoRegion ==>
        r == Region(ns[b.index].x, Fit(ns, b.index, w, h, W, H), w, h)
        && 1 <= r.x && r.x + w <= W - 1 && 1 <= r.y && r.y + h <= H - 1
        && SpanBelow(ns, r.x, r.x + w, r.y) && SpanReaches(ns, r.x, r.x + w, r.y)
        && (H <= UINT_MAX ==> forall j :: 0 <= j < |ns| && Fit(ns, j, w, h, W, H) >= 0 ==> r.y <= Fit(ns, j, w, h, W, H))
  {
    var b := ScanBest(ns, w, h, W, H, |ns|);
    if b.index != -1 {
      Picked(ns, w, h, W, H, |ns|);
      FitSky(ns, b.index, w, h, W, H);
      if H <= UINT_MAX {
        TopsBelowMaxOn(ns, w, h, W, H);
        ScanBestChoice(ns, w, h, W, H, |ns|);
      }
    }
  }

  /** Whatever the scan picks, it picked a fitting node and recorded its corner. */
  lemma {:induction false} Picked(ns: seq<Node>, w: int, h: int, W: int, H: int, n: nat)
    requires n <= |ns|
    ensures var b := ScanBest(ns, w, h, W, H, n);
      b.index != -1 ==> b.y == Fit(ns, b.index, w, h, W, H) >= 0 && b.x == ns[b.index].x
    decreases n
  {
    if n > 0 {
      Picked(ns, w, h, W, H, n - 1);
    }
  }

  /** A tiling of `[a, X)`, a node over `[X, X+w)` and a tiling of `[X+w, e)` make a tiling of `[a, e)`. */
  lemma JoinValid(P: seq<Node>, N: Node, C: seq<Node>, a: int, e: int, H: int)
    requires Tiles(P, a, N.x) && Tiles(C, N.x + N.z, e)
    requires Positive(P) && Positive(C) && N.z > 0
    requires Bounded(P, H) && Bounded(C, H) && 1 <= N.y <= H - 1
    ensures Tiles(P + ([N] + C), a, e) && Positive(P + ([N] + C)) && Bounded(P + ([N] + C), H)
  {
    assert ([N] + C)[1..] == C;
    assert Tiles([N] + C, N.x, e);
    TilesAppend(P, [N] + C, a, N.x, e);
    var L := P + ([N] + C);
    forall k | 0 <= k < |L| ensures L[k].z > 0 && 1 <= L[k].y <= H - 1 {
      if k < |P| {
        assert L[k] == P[k];
      } else if k > |P| {
        assert L[k] == C[k - |P| - 1];
      }
    }
  }

  /** The skyline of such a join: `P` left of `N`, `N` over its columns, `C` right of it. */
  lemma JoinSky(P: seq<Node>, N: Node, C: seq<Node>, a: int, e: int, c: int)
    requires Tiles(P, a, N.x) && Tiles(C, N.x + N.z, e) && Positive(P) && Positive(C) && N.z > 0
    ensures SkyAt(P + ([N] + C), c) ==
      if a <= c < N.x then SkyAt(P, c)
      else if N.x <= c < N.x + N.z then N.y
      else if N.x + N.z <= c < e then SkyAt(C, c)
      else 0
  {
    SkyAtConcat(P, [N] + C, c);
    TilesCovers(P, a, N.x, c);
    TilesCovers(C, N.x + N.z, e, c);
    assert ([N] + C)[1..] == C;
    if !(a <= c < N.x) && !(N.x <= c < N.x + N.z) && !(N.x + N.z <= c < e) {
      SkyAtUncovered(C, c);
    }
  }

  /** The pieces `Raise` is made of: the nodes before the best one, the raised node, and the clipped rest. */
  lemma RaiseParts(ns: seq<Node>, b: Best, w: int, h: int, W: int, H: int)
    requires SkylineValid(ns, W, H) && 0 <= b.index < |ns| && b.x == ns[b.index].x
    requires w > 0 && b.x + w <= W - 1
    ensures var P, S := ns[..b.index], ns[b.index..]; var C := Clip(b.x + w, S);
      Tiles(P, 1, b.x) && Tiles(S, b.x, W - 1) && Positive(P) && Positive(S) && Bounded(P, H) && Bounded(S, H)
      && Tiles(C, b.x + w, W - 1) && Positive(C) && Bounded(C, H)
      && ns == P + S && Raise(ns, b, w, h) == P + ([Node(b.x, b.y + h, w)] + C)
  {
    SplitAt(ns, b.index, W, H);
    ClipTiles(b.x + w, ns[b.index..], b.x, W - 1, H);
    RaiseIs(ns, b, w, h);
  }

  /** `Raise` with the concatenation grouped to the right, as the join lemmas take it. */
  lemma RaiseIs(ns: seq<Node>, b: Best, w: int, h: int)
    requires 0 <= b.index < |ns|
    ensures Raise(ns, b, w, h) == ns[..b.index] + ([Node(b.x, b.y + h, w)] + Clip(b.x + w, ns[b.index..]))
  {
  }

  /** A valid skyline split at node `i`: both parts are tilings with positive widths and heights in the interior. */
  lemma SplitAt(ns: seq<Node>, i: nat, W: int, H: int)
    requires SkylineValid(ns, W, H) && i < |ns|
    ensures Tiles(ns[..i], 1, ns[i].x) && Tiles(ns[i..], ns[i].x, W - 1)
    ensures Positive(ns[..i]) && Positive(ns[i..]) && Bounded(ns[..i], H) && Bounded(ns[i..], H)
    ensures ns == ns[..i] + ns[i..]
  {
    TilesSplit(ns, 1, W - 1, i);
    PositiveSlice(ns, 0, i);
    PositiveSlice(ns, i, |ns|);
    BoundedSlice(ns, H, 0, i);
    BoundedSlice(ns, H, i, |ns|);
    assert ns[0..i] == ns[..i] && ns[i..|ns|] == ns[i..];
  }

  /**
   * When the scan picks a node, the rectangle lies inside the border at the
   * picked corner, and the list before merging is valid again.
   */
  lemma RaiseValid(ns: seq<Node>, b: Best, w: int, h: int, W: int, H: int)
    requires SkylineValid(ns, W, H) && w > 0 && h >= 0
    requires b == ScanBest(ns, w, h, W, H, |ns|) && b.index != -1
    ensures b.x == ns[b.index].x && b.x + w <= W - 1 && 1 <= b.y && b.y + h <= H - 1
    ensures SkylineValid(Raise(ns, b, w, h), W, H)
  {
    Picked(ns, w, h, W, H, |ns|);
    FitSky(ns, b.index, w, h, W, H);
    RaiseParts(ns, b, w, h, W, H);
    JoinValid(ns[..b.index], Node(b.x, b.y + h, w), Clip(b.x + w, ns[b.index..]), 1, W - 1, H);
  }

  /** Before merging, the skyline is raised to `y + h` over the region's columns and unchanged elsewhere. */
  lemma RaiseSky(ns: seq<Node>, b: Best, w: int, h: int, W: int, H: int, c: int)
    requires SkylineValid(ns, W, H) && 0 <= b.index < |ns| && b.x == ns[b.index].x
    requires w > 0 && b.x + w <= W - 1
    ensures SkyAt(Raise(ns, b, w, h), c) == if b.x <= c < b.x + w then b.y + h else SkyAt(ns, c)
  {
    RaiseParts(ns, b, w, h, W, H);
    var X, P, S := b.x, ns[..b.index], ns[b.index..];
    JoinSky(P, Node(X, b.y + h, w), Clip(X + w, S), 1, W - 1, c);
    SkyAtConcat(P, S, c);
    TilesCovers(P, 1, X, c);
    TilesCovers(S, X, W - 1, c);
    if c >= X + w {
      ClipSky(X + w, S, c);
      if c >= W - 1 {
        SkyAtUncovered(S, c);
      }
    } else if c < 1 {
      SkyAtUncovered(S, c);
    }
  }

  /**
   * On success the node list is again valid, has no equal neighbours, and its
   * skyline is the old one raised to the region's top over the region's
   * columns and unchanged everywhere else.
   */
  lemma PlaceSkyline(ns: seq<Node>, w: int, h: int, W: int, H: int)
    requires SkylineValid(ns, W, H) && w > 0 && h >= 0
    ensures var (r, ns') := Place(ns, w, h, W, H);
      r != NoRegion ==>
        SkylineValid(ns', W, H) && NoEqualNeighbours(ns')
        && forall c :: SkyAt(ns', c) == if r.x <= c < r.x + w then r.y + h else SkyAt(ns, c)
  {
    PlaceValid(ns, w, h, W, H);
    PlaceSky(ns, w, h, W, H);
  }

  /** On success the node list is again valid and has no equal neighbours. */
  lemma PlaceValid(ns: seq<Node>, w: int, h: int, W: int, H: int)
    requires SkylineValid(ns, W, H) && w > 0 && h >= 0
    ensures var (r, ns') := Place(ns, w, h, W, H);
      r != NoRegion ==> SkylineValid(ns', W, H) && NoEqualNeighbours(ns')
  {
    var b := ScanBest(ns, w, h, W, H, |ns|);
    if b.index != -1 {
      RaiseValid(ns, b, w, h, W, H);
      MergeKeeps(Raise(ns, b, w, h), W, H);
    }
  }

  /** On success the skyline is the old one raised to the region's top over its columns. */
  lemma PlaceSky(ns: seq<Node>, w: int, h: int, W: int, H: int)
    requires SkylineValid(ns, W, H) && w > 0 && h >= 0
    ensures var (r, ns') := Place(ns, w, h, W, H);
      r != NoRegion ==> forall c :: SkyAt(ns', c) == if r.x <= c < r.x + w then r.y + h else SkyAt(ns, c)
  {
    var b := ScanBest(ns, w, h, W, H, |ns|);
    if b.index != -1 {
      RaiseValid(ns, b, w, h, W, H);
      var L := Raise(ns, b, w, h);
      MergeKeeps(L, W, H);
      forall c ensures SkyAt(Merge(L), c) == if b.x <= c < b.x + w then b.y + h else SkyAt(ns, c) {
        RaiseSky(ns, b, w, h, W, H, c);
      }
    }
  }

  // ---------------------------------------------------------------------------
  // Regions never overlap

  /** Region `r` lies at or below the skyline over all of its columns. */
  ghost predicate Under(r: Region, ns: seq<Node>)
  {
    forall c :: r.x <= c < r.x + r.w ==> r.y + r.h <= SkyAt(ns, c)
  }

  /** Pixel `(px, py)` belongs to region `r`. */
  ghost predicate InRegion(r: Region, px: int, py: int)
  {
    r.x <= px < r.x + r.w && r.y <= py < r.y + r.h
  }

  /** Two regions share no pixel: one is empty, or they are apart horizontally or vertically. */
  ghost predicate Disjoint(r: Region, s: Region)
  {
    r.w <= 0 || s.w <= 0 || r.h <= 0 || s.h <= 0
    || r.x + r.w <= s.x || s.x + s.w <= r.x || r.y + r.h <= s.y || s.y + s.h <= r.y
  }

  lemma DisjointNoCommonPixel(r: Region, s: Region)
    ensures Disjoint(r, s) <==> forall px, py :: !(InRegion(r, px, py) && InRegion(s, px, py))
  {
    if !Disjoint(r, s) {
      var px := if r.x < s.x then s.x else r.x;
      var py := if r.y < s.y then s.y else r.y;
      assert InRegion(r, px, py) && InRegion(s, px, py);
    }
  }

  /**
   * A region handed out by `get_region` overlaps none of the regions below
   * the old skyline, and all of them, the new one included, are below the
   * new skyline.
   */
  lemma PlaceDisjoint(ns: seq<Node>, w: int, h: int, W: int, H: int, R: seq<Region>)
    requires SkylineValid(ns, W, H) && w > 0 && h >= 0
    requires forall k :: 0 <= k < |R| ==> Under(R[k], ns)
    ensures var (r, ns') := Place(ns, w, h, W, H);
      r != NoRegion ==>
        (forall k :: 0 <= k < |R| ==> Disjoint(R[k], r))
        && (forall k :: 0 <= k < |R| ==> Under(R[k], ns'))
        && Under(r, ns')
  {
    var (r, ns') := Place(ns, w, h, W, H);
    if r != NoRegion {
      PlaceRegion(ns, w, h, W, H);
      PlaceSky(ns, w, h, W, H);
      forall k | 0 <= k < |R| ensures Disjoint(R[k], r) && Under(R[k], ns') {
        StaysApart(R[k], r, ns, ns');
      }
    }
  }

  /**
   * A region under the old skyline and a new region that sits on the old
   * skyline do not overlap, and the first one is still under the raised one.
   */
  lemma StaysApart(q: Region, r: Region, ns: seq<Node>, ns': seq<Node>)
    requires Under(q, ns) && SpanBelow(ns, r.x, r.x + r.w, r.y) && r.h >= 0
    requires forall c :: SkyAt(ns', c) == if r.x <= c < r.x + r.w then r.y + r.h else SkyAt(ns, c)
    ensures Disjoint(q, r) && Under(q, ns')
  {
    if q.w > 0 && r.w > 0 && q.x < r.x + r.w && r.x < q.x + q.w {
      var c := if q.x < r.x then r.x else q.x;
      assert q.y + q.h <= SkyAt(ns, c) <= r.y;
    }
    forall c | q.x <= c < q.x + q.w ensures q.y + q.h <= SkyAt(ns', c) {
      assert q.y + q.h <= SkyAt(ns, c);
      if r.x <= c < r.x + r.w {
        assert SkyAt(ns, c) <= r.y;
      }
    }
  }


  /** The node list of a new or cleared atlas, `(1, 1, W - 2)`, is valid: the whole interior is free from row 1 on. */
  lemma InitialSkyline(W: int, H: int)
    requires W >= 3 && H >= 2
    ensures SkylineValid([Node(1, 1, W - 2)], W, H)
  {
    assert [Node(1, 1, W - 2)][1..] == [];
  }

  /**
   * `enlarge_texture`'s node update: a wider atlas gets one node
   * `(W - 1, 1, wn - W)` for the new columns; the list stays valid for the
   * new size and the skyline over the old interior is unchanged.
   */
  lemma Widen(ns: seq<Node>, W: int, H: int, wn: int, hn: int)
    requires SkylineValid(ns, W, H) && wn >= W && hn >= H && H >= 2
    ensures var ns' := ns + (if wn > W then [Node(W - 1, 1, wn - W)] else []);
      SkylineValid(ns', wn, hn) && forall c :: c < W - 1 ==> SkyAt(ns', c) == SkyAt(ns, c)
  {
    var e: seq<Node> := if wn > W then [Node(W - 1, 1, wn - W)] else [];
    var ns' := ns + e;
    if wn > W {
      assert e[1..] == [];
      TilesAppend(ns, e, 1, W - 1, wn - 1);
    } else {
      assert ns' == ns;
    }
    forall k | 0 <= k < |ns'| ensures ns'[k].z > 0 && 1 <= ns'[k].y <= hn - 1 {
      if k < |ns| {
        assert ns'[k] == ns[k];
      }
    }
    forall c | c < W - 1 ensures SkyAt(ns', c) == SkyAt(ns, c) {
      SkyAtConcat(ns, e, c);
      TilesCovers(ns, 1, W - 1, c);
      if !Covers(ns, c) {
        SkyAtUncovered(ns, c);
        if wn > W {
          assert e[1..] == [];
          assert !Covers(e[1..], c);
          SkyAtUncovered(e, c);
        }
      }
    }
  }

  /**
   * The special 5 x 5 region of a new atlas goes to `(1, 1)` exactly when the
   * atlas is at least 7 x 7 (a 5-pixel square plus the 1-pixel border).
   */
  lemma FirstPlacement(W: int, H: int)
    requires W >= 3 && H >= 2
    ensures Place([Node(1, 1, W - 2)], 5, 5, W, H).0 == if W >= 7 && H >= 7 then Region(1, 1, 5, 5) else NoRegion
  {
    var ns := [Node(1, 1, W - 2)];
    assert ns[0..] == ns && ns[1..] == [];
    if W >= 7 && H >= 7 {
      assert FitScan(ns, 5, 1, 5, H) == FitScan([], 5 - (W - 2), 1, 5, H);
      assert Fit(ns, 0, 5, 5, W, H) == 1;
    } else {
      assert Fit(ns, 0, 5, 5, W, H) == -1;
    }
  }

  // ---------------------------------------------------------------------------
  // A worked example on a cleared 64 x 64 atlas (one node `(1, 1, 62)`)

  /** `get_region(10, 10)` on the cleared atlas takes the bottom-left corner. */
  lemma ExampleStep1()
    ensures Place([Node(1, 1, 62)], 10, 10, 64, 64)
      == (Region(1, 1, 10, 10), [Node(1, 11, 10), Node(11, 1, 52)])
  {
    var ns := [Node(1, 1, 62)];
    assert Fit(ns, 0, 10, 10, 64, 64) == 1;
    var b := ScanBest(ns, 10, 10, 64, 64, 1);
    assert b == Best(11, 0, 62, 1, 1);
    assert Clip(11, ns[0..]) == [Node(11, 1, 52)];
    var L := Raise(ns, b, 10, 10);
    assert L == [Node(1, 11, 10), Node(11, 1, 52)];
    assert MergeFrom(L, 1) == L;
  }

  /** Then `get_region(60, 10)` fits: `1 + 60 <= 63`, on top of the first region. */
  lemma ExampleStep2()
    ensures Place([Node(1, 11, 10), Node(11, 1, 52)], 60, 10, 64, 64)
      == (Region(1, 11, 60, 10), [Node(1, 21, 60), Node(61, 1, 2)])
  {
    var ns := [Node(1, 11, 10), Node(11, 1, 52)];
    assert Fit(ns, 0, 60, 10, 64, 64) == 11;
    assert Fit(ns, 1, 60, 10, 64, 64) == -1;
    var b := ScanBest(ns, 60, 10, 64, 64, 2);
    assert ScanBest(ns, 60, 10, 64, 64, 1) == Best(21, 0, 10, 1, 11);
    assert b == Best(21, 0, 10, 1, 11);
    assert ns[0..] == ns;
    assert Clip(61, ns[1..]) == [Node(61, 1, 2)];
    assert Clip(61, ns) == [Node(61, 1, 2)];
    var L := Raise(ns, b, 60, 10);
    assert L == [Node(1, 21, 60), Node(61, 1, 2)];
    assert MergeFrom(L, 1) == L;
  }

  /** Then `get_region(50, 10)` goes on top again. */
  lemma ExampleStep3()
    ensures Place([Node(1, 21, 60), Node(61, 1, 2)], 50, 10, 64, 64)
      == (Region(1, 21, 50, 10), [Node(1, 31, 50), Node(51, 21, 10), Node(61, 1, 2)])
  {
    var ns := [Node(1, 21, 60), Node(61, 1, 2)];
    assert Fit(ns, 0, 50, 10, 64, 64) == 21;
    assert Fit(ns, 1, 50, 10, 64, 64) == -1;
    assert ScanBest(ns, 50, 10, 64, 64, 1) == Best(31, 0, 60, 1, 21);
    var b := ScanBest(ns, 50, 10, 64, 64, 2);
    assert b == Best(31, 0, 60, 1, 21);
    assert ns[0..] == ns;
    assert Clip(51, ns) == [Node(51, 21, 10), Node(61, 1, 2)];
    var L := Raise(ns, b, 50, 10);
    assert L == [Node(1, 31, 50), Node(51, 21, 10), Node(61, 1, 2)];
    assert MergeFrom(L, 2) == L;
    assert MergeFrom(L, 1) == L;
  }

  /** And `get_region(10, 10)` takes the lower step at column 51; the two tops of height 31 are merged. */
  lemma ExampleStep4()
    ensures Place([Node(1, 31, 50), Node(51, 21, 10), Node(61, 1, 2)], 10, 10, 64, 64)
      == (Region(51, 21, 10, 10), [Node(1, 31, 60), Node(61, 1, 2)])
  {
    var ns := [Node(1, 31, 50), Node(51, 21, 10), Node(61, 1, 2)];
    assert Fit(ns, 0, 10, 10, 64, 64) == 31;
    assert Fit(ns, 1, 10, 10, 64, 64) == 21;
    assert Fit(ns, 2, 10, 10, 64, 64) == -1;
    assert ScanBest(ns, 10, 10, 64, 64, 1) == Best(41, 0, 50, 1, 31);
    assert ScanBest(ns, 10, 10, 64, 64, 2) == Best(31, 1, 10, 51, 21);
    var b := ScanBest(ns, 10, 10, 64, 64, 3);
    assert b == Best(31, 1, 10, 51, 21);
    assert ns[1..][1..] == [Node(61, 1, 2)];
    assert Clip(61, ns[1..]) == [Node(61, 1, 2)];
    var L := Raise(ns, b, 10, 10);
    assert L == [Node(1, 31, 50), Node(51, 31, 10), Node(61, 1, 2)];
    var m := MergeAt(L, 0);
    assert m == [Node(1, 31, 60), Node(61, 1, 2)];
    assert MergeFrom(m, 1) == m;
    assert MergeFrom(m, 0) == m;
  }

  /** Without the 60-wide request, `get_region(50, 10)` after the first region takes the lower node at column 11. */
  lemma ExampleSkipStep()
    ensures Place([Node(1, 11, 10), Node(11, 1, 52)], 50, 10, 64, 64)
      == (Region(11, 1, 50, 10), [Node(1, 11, 60), Node(61, 1, 2)])
  {
    var ns := [Node(1, 11, 10), Node(11, 1, 52)];
    assert Fit(ns, 0, 50, 10, 64, 64) == 11;
    assert Fit(ns, 1, 50, 10, 64, 64) == 1;
    assert ScanBest(ns, 50, 10, 64, 64, 1) == Best(21, 0, 10, 1, 11);
    var b := ScanBest(ns, 50, 10, 64, 64, 2);
    assert b == Best(11, 1, 52, 11, 1);
    assert Clip(61, ns[1..]) == [Node(61, 1, 2)];
    var L := Raise(ns, b, 50, 10);
    assert L == [Node(1, 11, 10), Node(11, 11, 50), Node(61, 1, 2)];
    var m := MergeAt(L, 0);
    assert m == [Node(1, 11, 60), Node(61, 1, 2)];
    assert MergeFrom(m, 1) == m;
    assert MergeFrom(m, 0) == m;
  }

  /** ... and the next `get_region(10, 10)` then sits at `(1, 11)`, on the first region. */
  lemma ExampleSkipNext()
    ensures Place([Node(1, 11, 60), Node(61, 1, 2)], 10, 10, 64, 64).0 == Region(1, 11, 10, 10)
  {
    var ns := [Node(1, 11, 60), Node(61, 1, 2)];
    assert Fit(ns, 0, 10, 10, 64, 64) == 11;
    assert Fit(ns, 1, 10, 10, 64, 64) == -1;
    assert ScanBest(ns, 10, 10, 64, 64, 1) == Best(21, 0, 60, 1, 11);
    assert ScanBest(ns, 10, 10, 64, 64, 2) == Best(21, 0, 60, 1, 11);
  }
}
