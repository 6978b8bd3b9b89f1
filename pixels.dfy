/**
 * Texture bytes and the rectangle copy of `ftgl_texture_atlas_set_region`.
 *
 * A texture is a sequence of bytes, row after row, `rowBytes` bytes per row
 * (width times depth).  Copying a rectangle writes, for each of its rows, one
 * run of bytes at a fixed byte column of the texture, read from the source at
 * a fixed stride.
 */
module Pixels {

  /** `s` with `t` written over it from offset `off` on: one `memcpy`. */
  function Splice(s: seq<bv8>, off: nat, t: seq<bv8>): (r: seq<bv8>)
    requires off + |t| <= |s|
    ensures |r| == |s|
    ensures forall k :: 0 <= k < |s| ==> r[k] == if off <= k < off + |t| then t[k - off] else s[k]
  {
    s[..off] + t + s[off + |t|..]
  }

  /** `n` zero bytes: a `calloc`ed buffer. */
  function Zeros(n: nat): (z: seq<bv8>)
    ensures |z| == n && forall k :: 0 <= k < n ==> z[k] == 0
  {
    seq(n, _ => 0)
  }

  /** Row `r` of the texture starts at byte `r * rowBytes`; a run of `len` bytes at byte column `xb` stays in the row. */
  predicate BlitFits(n: nat, rowBytes: nat, xb: nat, y: nat, len: nat, rows: nat)
  {
    xb + len <= rowBytes && (y + rows) * rowBytes <= n
  }

  /** The source holds `rows` runs of `len` bytes, `stride` bytes apart. */
  predicate SourceLongEnough(n: nat, rows: nat, len: nat, stride: nat)
  {
    rows == 0 || (rows - 1) * stride + len <= n
  }

  lemma MulNonneg(a: nat, b: nat)
    ensures 0 <= a * b
  {
  }

  lemma MulMono(a: nat, b: nat, m: nat)
    requires a <= b
    ensures a * m <= b * m
  {
  }

  /** The bounds the last row of a copy of `rows` rows needs, and the copy of one row fewer. */
  lemma LastRow(n: nat, rowBytes: nat, xb: nat, y: nat, len: nat, rows: nat, srcLen: nat, stride: nat)
    requires rows > 0 && BlitFits(n, rowBytes, xb, y, len, rows) && SourceLongEnough(srcLen, rows, len, stride)
    ensures BlitFits(n, rowBytes, xb, y, len, rows - 1) && SourceLongEnough(srcLen, rows - 1, len, stride)
    ensures 0 <= (y + rows - 1) * rowBytes && (y + rows - 1) * rowBytes + xb + len <= n
    ensures 0 <= (rows - 1) * stride && (rows - 1) * stride + len <= srcLen
  {
    MulNonneg(y + rows - 1, rowBytes);
    MulNonneg(rows - 1, stride);
    var q := y + rows - 1;
    assert (q + 1) * rowBytes == q * rowBytes + rowBytes;
    assert y + (rows - 1) == q;
    if rows > 1 {
      MulMono(rows - 2, rows - 1, stride);
    }
  }

  /**
   * The texture `dst` after rows `0 .. rows - 1` of a rectangle whose top-left
   * byte is byte `xb` of row `y` are copied, `len` bytes per row, row `i`
   * read from `src` at `i * stride`.
   */
  ghost function Blit(dst: seq<bv8>, rowBytes: nat, xb: nat, y: nat, len: nat, rows: nat,
                      src: seq<bv8>, stride: nat): (r: seq<bv8>)
    requires BlitFits(|dst|, rowBytes, xb, y, len, rows) && SourceLongEnough(|src|, rows, len, stride)
    ensures |r| == |dst|
    decreases rows
  {
    if rows == 0 then dst
    else
      LastRow(|dst|, rowBytes, xb, y, len, rows, |src|, stride);
      Splice(Blit(dst, rowBytes, xb, y, len, rows - 1, src, stride),
             (y + rows - 1) * rowBytes + xb, src[(rows - 1) * stride .. (rows - 1) * stride + len])
  }

  /** One more row: the last row of the rectangle is copied over the copy of the rows before it. */
  lemma BlitUnfold(dst: seq<bv8>, rowBytes: nat, xb: nat, y: nat, len: nat, rows: nat, src: seq<bv8>, stride: nat)
    requires rows > 0 && BlitFits(|dst|, rowBytes, xb, y, len, rows) && SourceLongEnough(|src|, rows, len, stride)
    ensures 0 <= (y + rows - 1) * rowBytes && (y + rows - 1) * rowBytes + xb + len <= |dst|
    ensures 0 <= (rows - 1) * stride && (rows - 1) * stride + len <= |src|
    ensures BlitFits(|dst|, rowBytes, xb, y, len, rows - 1) && SourceLongEnough(|src|, rows - 1, len, stride)
    ensures Blit(dst, rowBytes, xb, y, len, rows, src, stride) ==
      Splice(Blit(dst, rowBytes, xb, y, len, rows - 1, src, stride),
             (y + rows - 1) * rowBytes + xb, src[(rows - 1) * stride .. (rows - 1) * stride + len])
  {
    LastRow(|dst|, rowBytes, xb, y, len, rows, |src|, stride);
  }

  /** The first `i` rows of a copy of `rows` rows: what a row-by-row copy has written after `i` steps. */
  ghost function BlitRows(dst: seq<bv8>, rowBytes: nat, xb: nat, y: nat, len: nat, rows: nat, src: seq<bv8>, stride: nat,
                          i: nat): (r: seq<bv8>)
    requires BlitFits(|dst|, rowBytes, xb, y, len, rows) && SourceLongEnough(|src|, rows, len, stride) && i <= rows
    ensures |r| == |dst|
  {
    FewerRows(|dst|, rowBytes, xb, y, len, rows, |src|, stride, i);
    Blit(dst, rowBytes, xb, y, len, i, src, stride)
  }

  /** `Blit` of `i + 1` rows is `Blit` of `i` rows with row `i` spliced in at byte `off`. */
  lemma BlitStep(dst: seq<bv8>, rowBytes: nat, xb: nat, y: nat, len: nat, i: nat, src: seq<bv8>, stride: nat, off: nat, so: nat)
    requires BlitFits(|dst|, rowBytes, xb, y, len, i + 1) && SourceLongEnough(|src|, i + 1, len, stride)
    requires off == (y + i) * rowBytes + xb && so == i * stride
    ensures BlitFits(|dst|, rowBytes, xb, y, len, i) && SourceLongEnough(|src|, i, len, stride)
    ensures off + len <= |dst| && so + len <= |src|
    ensures Blit(dst, rowBytes, xb, y, len, i + 1, src, stride)
         == Splice(Blit(dst, rowBytes, xb, y, len, i, src, stride), off, src[so .. so + len])
  {
    LastRow(|dst|, rowBytes, xb, y, len, i + 1, |src|, stride);
    ghost var rest := Blit(dst, rowBytes, xb, y, len, i, src, stride);
    assert Blit(dst, rowBytes, xb, y, len, i + 1, src, stride) == Splice(rest, off, src[so .. so + len]);
  }

  /**
   * One step of a row-by-row copy: after rows `0 .. i - 1`, copying row `i`
   * to byte `off` from byte `so` of the source is the copy of `i + 1` rows.
   */
  lemma BlitNextRow(dst: seq<bv8>, rowBytes: nat, xb: nat, y: nat, len: nat, rows: nat, src: seq<bv8>, stride: nat,
                    i: nat, off: nat, so: nat)
    requires BlitFits(|dst|, rowBytes, xb, y, len, rows) && SourceLongEnough(|src|, rows, len, stride) && i < rows
    requires off == (y + i) * rowBytes + xb && so == i * stride
    ensures off + len <= |dst| && so + len <= |src|
    ensures BlitRows(dst, rowBytes, xb, y, len, rows, src, stride, i + 1)
         == Splice(BlitRows(dst, rowBytes, xb, y, len, rows, src, stride, i), off, src[so .. so + len])
  {
    FewerRows(|dst|, rowBytes, xb, y, len, rows, |src|, stride, i + 1);
    BlitStep(dst, rowBytes, xb, y, len, i, src, stride, off, so);
  }

  /** Byte `o` of row `r` lies in the run at byte column `a` of row `q` exactly when `r == q` and `o` is in the run. */
  lemma RowSpan(R: nat, r: nat, o: nat, q: nat, a: nat, L: nat)
    requires o < R && a + L <= R
    ensures (q * R + a <= r * R + o < q * R + a + L) <==> (r == q && a <= o < a + L)
  {
    if r < q {
      MulMono(r + 1, q, R);
      assert (r + 1) * R == r * R + R;
    } else if r > q {
      MulMono(q + 1, r, R);
      assert (q + 1) * R == q * R + R;
    }
  }

  /** Run `i` of the source, byte `j` of it, lies inside the source. */
  lemma SourceIndex(n: nat, rows: nat, len: nat, stride: nat, i: nat, j: nat)
    requires SourceLongEnough(n, rows, len, stride) && i < rows && j < len
    ensures 0 <= i * stride + j < n
  {
    MulMono(i, rows - 1, stride);
  }

  /** A byte outside the run of the last row is not written by that row's copy. */
  lemma NotInLastRun(R: nat, r: nat, o: nat, q: nat, a: nat, L: nat, S: int, k: int)
    requires o < R && a + L <= R && S == q * R + a && k == r * R + o
    requires !(r == q && a <= o < a + L)
    ensures !(S <= k < S + L)
  {
    RowSpan(R, r, o, q, a, L);
  }

  /** The copy of the last row writes byte `o` of that row from the source's last run. */
  lemma LastRowPixel(B: seq<bv8>, rowBytes: nat, xb: nat, y: nat, len: nat, rows: nat,
                     src: seq<bv8>, stride: nat, o: nat, k: nat)
    requires rows > 0 && (y + rows - 1) * rowBytes + xb + len <= |B| && (rows - 1) * stride + len <= |src|
    requires xb <= o < xb + len && k == (y + rows - 1) * rowBytes + o
    ensures Splice(B, (y + rows - 1) * rowBytes + xb, src[(rows - 1) * stride .. (rows - 1) * stride + len])[k]
      == src[(rows - 1) * stride + (o - xb)]
  {
  }

  /** Bytes outside the last row's run keep the value of the copy of the rows before. */
  lemma OtherPixel(dst: seq<bv8>, rowBytes: nat, xb: nat, y: nat, len: nat, rows: nat,
                   src: seq<bv8>, stride: nat, k: nat)
    requires rows > 0 && BlitFits(|dst|, rowBytes, xb, y, len, rows) && SourceLongEnough(|src|, rows, len, stride)
    requires k < |dst| && !((y + rows - 1) * rowBytes + xb <= k < (y + rows - 1) * rowBytes + xb + len)
    ensures BlitFits(|dst|, rowBytes, xb, y, len, rows - 1) && SourceLongEnough(|src|, rows - 1, len, stride)
    ensures Blit(dst, rowBytes, xb, y, len, rows, src, stride)[k] == Blit(dst, rowBytes, xb, y, len, rows - 1, src, stride)[k]
  {
    BlitUnfold(dst, rowBytes, xb, y, len, rows, src, stride);
  }

  /**
   * Pixel-wise meaning of a copy: byte `o` of row `r` is taken from the
   * source when it lies in the rectangle, and keeps its old value otherwise.
   */
  lemma {:induction false} BlitPixel(dst: seq<bv8>, rowBytes: nat, xb: nat, y: nat, len: nat, rows: nat,
                                     src: seq<bv8>, stride: nat, r: nat, o: nat, k: nat)
    requires BlitFits(|dst|, rowBytes, xb, y, len, rows) && SourceLongEnough(|src|, rows, len, stride)
    requires o < rowBytes && k == r * rowBytes + o && k < |dst|
    ensures (y <= r < y + rows && xb <= o < xb + len) ==> 0 <= (r - y) * stride + (o - xb) < |src|
    ensures Blit(dst, rowBytes, xb, y, len, rows, src, stride)[k] ==
      if y <= r < y + rows && xb <= o < xb + len then src[(r - y) * stride + (o - xb)] else dst[k]
    decreases rows, 1
  {
    if rows > 0 {
      if r == y + rows - 1 && xb <= o < xb + len {
        BlitPixelLast(dst, rowBytes, xb, y, len, rows, src, stride, r, o, k);
      } else {
        BlitPixelEarlier(dst, rowBytes, xb, y, len, rows, src, stride, r, o, k);
      }
    }
  }

  /** The case of `BlitPixel` for bytes in the last row's run: they come from the source's last run. */
  lemma BlitPixelLast(dst: seq<bv8>, rowBytes: nat, xb: nat, y: nat, len: nat, rows: nat,
                      src: seq<bv8>, stride: nat, r: nat, o: nat, k: nat)
    requires BlitFits(|dst|, rowBytes, xb, y, len, rows) && SourceLongEnough(|src|, rows, len, stride)
    requires k == r * rowBytes + o && k < |dst|
    requires rows > 0 && r == y + rows - 1 && xb <= o < xb + len
    ensures 0 <= (r - y) * stride + (o - xb) < |src|
    ensures Blit(dst, rowBytes, xb, y, len, rows, src, stride)[k] == src[(r - y) * stride + (o - xb)]
  {
    BlitUnfold(dst, rowBytes, xb, y, len, rows, src, stride);
    assert r * rowBytes == (y + rows - 1) * rowBytes;
    assert (r - y) * stride == (rows - 1) * stride;
    var B := Blit(dst, rowBytes, xb, y, len, rows - 1, src, stride);
    LastRowPixel(B, rowBytes, xb, y, len, rows, src, stride, o, k);
    SourceIndex(|src|, rows, len, stride, rows - 1, o - xb);
  }

  /** The case of `BlitPixel` for bytes outside the last row's run: they are as after the rows before. */
  lemma {:induction false} BlitPixelEarlier(dst: seq<bv8>, rowBytes: nat, xb: nat, y: nat, len: nat, rows: nat,
                                            src: seq<bv8>, stride: nat, r: nat, o: nat, k: nat)
    requires BlitFits(|dst|, rowBytes, xb, y, len, rows) && SourceLongEnough(|src|, rows, len, stride)
    requires o < rowBytes && k == r * rowBytes + o && k < |dst|
    requires rows > 0 && !(r == y + rows - 1 && xb <= o < xb + len)
    ensures (y <= r < y + rows && xb <= o < xb + len) ==> 0 <= (r - y) * stride + (o - xb) < |src|
    ensures Blit(dst, rowBytes, xb, y, len, rows, src, stride)[k] ==
      if y <= r < y + rows && xb <= o < xb + len then src[(r - y) * stride + (o - xb)] else dst[k]
    decreases rows, 0
  {
    NotInLastRun(rowBytes, r, o, y + rows - 1, xb, len, (y + rows - 1) * rowBytes + xb, k);
    OtherPixel(dst, rowBytes, xb, y, len, rows, src, stride, k);
    BlitPixel(dst, rowBytes, xb, y, len, rows - 1, src, stride, r, o, k);
  }

  /** Fewer rows of a copy that fits also fit. */
  lemma FewerRows(n: nat, rowBytes: nat, xb: nat, y: nat, len: nat, rows: nat, srcLen: nat, stride: nat, i: nat)
    requires BlitFits(n, rowBytes, xb, y, len, rows) && SourceLongEnough(srcLen, rows, len, stride) && i <= rows
    ensures BlitFits(n, rowBytes, xb, y, len, i) && SourceLongEnough(srcLen, i, len, stride)
  {
    MulMono(y + i, y + rows, rowBytes);
    if i > 0 {
      MulMono(i - 1, rows - 1, stride);
    }
  }

  /** A `w` x `h` rectangle at `(x, y)` of a `W` x `H` texture of depth `d`, in byte terms. */
  lemma RectangleFits(W: nat, H: nat, d: nat, x: nat, y: nat, w: nat, h: nat)
    requires x + w <= W && y + h <= H
    ensures BlitFits(W * H * d, W * d, x * d, y, w * d, h)
  {
    MulMono(x + w, W, d);
    assert (x + w) * d == x * d + w * d;
    MulMono(y + h, H, W * d);
    assert H * (W * d) == W * H * d;
  }

  /** Byte offset of byte column `x * d` of row `r`, as `set_region` computes it. */
  lemma RowOffset(W: nat, d: nat, x: nat, r: nat)
    ensures (r * W + x) * d == r * (W * d) + x * d
  {
  }

  /**
   * `enlarge_texture` reads the old interior starting at byte `(W + 1) * d`
   * (row 1, pixel 1), `H - 2` rows of `(W - 2) * d` bytes, `W * d` apart.
   */
  lemma InteriorSource(W: nat, H: nat, d: nat)
    requires W >= 3 && H >= 3
    ensures (W + 1) * d <= W * H * d
    ensures SourceLongEnough(W * H * d - (W + 1) * d, H - 2, (W - 2) * d, W * d)
  {
    assert W * H * d == H * (W * d);
    assert (W + 1) * d == W * d + d;
    assert (W - 2) * d == W * d - 2 * d;
    assert (H - 3) * (W * d) == H * (W * d) - 3 * (W * d);
    MulMono(2, H, W * d);
    MulMono(1, W, d);
  }

  /** `BlitPixel` for a source that is a suffix of a larger buffer, read from offset `off`. */
  lemma BlitShifted(dst: seq<bv8>, R: nat, xb: nat, y: nat, len: nat, rows: nat,
                    before: seq<bv8>, off: nat, stride: nat, r: nat, o: nat, k: nat)
    requires off <= |before| && BlitFits(|dst|, R, xb, y, len, rows)
    requires SourceLongEnough(|before[off..]|, rows, len, stride)
    requires o < R && k == r * R + o && k < |dst|
    ensures (y <= r < y + rows && xb <= o < xb + len) ==> 0 <= off + (r - y) * stride + (o - xb) < |before|
    ensures Blit(dst, R, xb, y, len, rows, before[off..], stride)[k] ==
      if y <= r < y + rows && xb <= o < xb + len then before[off + (r - y) * stride + (o - xb)] else dst[k]
  {
    BlitPixel(dst, R, xb, y, len, rows, before[off..], stride, r, o, k);
  }

  lemma MulSucc(a: int, b: int)
    ensures (a + 1) * b == a * b + b
  {
  }

  lemma MulReassoc(a: int, b: int, c: int)
    ensures a * b * c == b * (a * c)
  {
  }

  /** Byte `o` of row `r` of an `n`-row texture of `R` bytes per row lies inside it. */
  lemma RowBound(r: nat, n: nat, R: nat, o: nat)
    requires r < n && o < R
    ensures r * R + o < n * R
  {
    MulMono(r + 1, n, R);
    MulSucc(r, R);
  }

  /** The index arithmetic behind `MovedInterior`. */
  lemma MovedArith(W: nat, H: nat, d: nat, wn: nat, hn: nat, r: nat, o: nat)
    requires W >= 3 && H >= 3 && wn >= W && hn >= H && o < wn * d && r < hn
    ensures r * (wn * d) + o < wn * hn * d
    ensures 1 * d == d && (W - 2) * d + d == (W - 1) * d
    ensures (1 <= r < H - 1 && d <= o < (W - 1) * d) ==>
      o < W * d && (r - 1) * (W * d) + (o - d) + (W + 1) * d == r * (W * d) + o && r * (W * d) + o < W * H * d
  {
    RowBound(r, hn, wn * d, o);
    MulReassoc(wn, hn, d);
    MulSucc(W - 2, d);
    MulSucc(W - 1, d);
    MulSucc(W, d);
    if 1 <= r < H - 1 && d <= o < (W - 1) * d {
      MulSucc(r - 1, W * d);
      RowBound(r, H, W * d, o);
      MulReassoc(W, H, d);
    }
  }

  /**
   * The texture `enlarge_texture` builds from the `W` x `H` texture `before`
   * of depth `d`: a zeroed `wn` x `hn` texture into which the `W - 2` x
   * `H - 2` interior of `before` is copied at pixel (1, 1).
   */
  ghost function Enlarged(before: seq<bv8>, W: nat, H: nat, d: nat, wn: nat, hn: nat): (r: seq<bv8>)
    requires W >= 3 && H >= 3 && wn >= W && hn >= H && |before| == W * H * d
    ensures |r| == wn * hn * d
  {
    InteriorSource(W, H, d);
    RectangleFits(wn, hn, d, 1, 1, W - 2, H - 2);
    Blit(Zeros(wn * hn * d), wn * d, 1 * d, 1, (W - 2) * d, H - 2, before[(W + 1) * d..], W * d)
  }

  /** `Enlarged` is the copy of the interior rows `(W + 1) * d` on into the zeroed texture. */
  lemma EnlargedIs(before: seq<bv8>, W: nat, H: nat, d: nat, wn: nat, hn: nat)
    requires W >= 3 && H >= 3 && wn >= W && hn >= H && |before| == W * H * d
    ensures W * d + d == (W + 1) * d <= |before| && SourceLongEnough(|before| - (W + 1) * d, H - 2, (W - 2) * d, W * d)
    ensures BlitFits(wn * hn * d, wn * d, 1 * d, 1, (W - 2) * d, H - 2)
    ensures Enlarged(before, W, H, d, wn, hn) == Blit(Zeros(wn * hn * d), wn * d, 1 * d, 1, (W - 2) * d, H - 2, before[(W + 1) * d..], W * d)
  {
    InteriorSource(W, H, d);
    RectangleFits(wn, hn, d, 1, 1, W - 2, H - 2);
  }

  /**
   * After `enlarge_texture`, byte `o` of row `r` of the new texture holds the
   * old texture's byte at the same row and byte column inside the old
   * interior, and zero everywhere else.
   */
  lemma MovedInterior(before: seq<bv8>, W: nat, H: nat, d: nat, wn: nat, hn: nat, r: nat, o: nat, k: nat, j: nat)
    requires W >= 3 && H >= 3 && wn >= W && hn >= H && |before| == W * H * d
    requires o < wn * d && r < hn && k == r * (wn * d) + o && j == r * (W * d) + o
    ensures k < wn * hn * d
    ensures (1 <= r < H - 1 && d <= o < (W - 1) * d) ==> j < |before|
    ensures Enlarged(before, W, H, d, wn, hn)[k] == if 1 <= r < H - 1 && d <= o < (W - 1) * d then before[j] else 0
  {
    InteriorSource(W, H, d);
    RectangleFits(wn, hn, d, 1, 1, W - 2, H - 2);
    MovedArith(W, H, d, wn, hn, r, o);
    BlitShifted(Zeros(wn * hn * d), wn * d, 1 * d, 1, (W - 2) * d, H - 2, before, (W + 1) * d, W * d, r, o, k);
  }
}
