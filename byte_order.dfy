/**
 * The pixel swizzle of `ftgl_texture_font_load_glyph_gi` for colour bitmaps:
 * a BGRA pixel read as a `uint32_t` becomes the RGBA pixel
 * `rol(bswap32(v), 24)` on little-endian machines and `rol(bswap32(v), 8)`
 * on big-endian ones.  `bswap32` is the byte reversal written out for
 * compilers without `__builtin_bswap32`.
 */
module ByteOrder {
  /** `rol`: rotate left by `x` bits; `x == 0` would shift by 32, which C leaves undefined. */
  function Rol(v: bv32, x: bv32): bv32
    requires 0 < x < 32
  {
    (v >> (32 - x)) | (v << x)
  }

  /** The fallback `__builtin_bswap32`. */
  function Bswap32(v: bv32): bv32
  {
    ((v >> 24) & 0xFF) | ((v >> 8) & 0xFF00) | ((v & 0xFF00) << 8) | ((v & 0xFF) << 24)
  }

  /** The four bytes of a `uint32_t` as a little-endian machine stores them. */
  function BytesLE(v: bv32): seq<bv8>
  {
    [(v & 0xFF) as bv8, ((v >> 8) & 0xFF) as bv8, ((v >> 16) & 0xFF) as bv8, (v >> 24) as bv8]
  }

  /** The `uint32_t` a little-endian machine reads from four bytes. */
  function FromLE(b0: bv8, b1: bv8, b2: bv8, b3: bv8): bv32
  {
    (b0 as bv32) | (b1 as bv32 << 8) | (b2 as bv32 << 16) | (b3 as bv32 << 24)
  }

  /** The `uint32_t` a big-endian machine reads from four bytes. */
  function FromBE(b0: bv8, b1: bv8, b2: bv8, b3: bv8): bv32
  {
    (b0 as bv32 << 24) | (b1 as bv32 << 16) | (b2 as bv32 << 8) | (b3 as bv32)
  }

  /** The four bytes of a `uint32_t` as a big-endian machine stores them. */
  function BytesBE(v: bv32): seq<bv8>
  {
    [(v >> 24) as bv8, ((v >> 16) & 0xFF) as bv8, ((v >> 8) & 0xFF) as bv8, (v & 0xFF) as bv8]
  }

  /** The bytes of the value built from four bytes, one shift each. */
  lemma BytesOfLE(v: bv32, b0: bv8, b1: bv8, b2: bv8, b3: bv8)
    requires v == FromLE(b0, b1, b2, b3)
    ensures (v & 0xFF) as bv8 == b0 && ((v >> 8) & 0xFF) as bv8 == b1
    ensures ((v >> 16) & 0xFF) as bv8 == b2 && (v >> 24) as bv8 == b3
  {
  }

  /** Storing what was read gives back the bytes. */
  lemma LERoundTrip(b0: bv8, b1: bv8, b2: bv8, b3: bv8)
    ensures BytesLE(FromLE(b0, b1, b2, b3)) == [b0, b1, b2, b3]
  {
    BytesOfLE(FromLE(b0, b1, b2, b3), b0, b1, b2, b3);
  }

  /** `bswap32` builds, little-endian, the value whose bytes are those of `v` from the top down. */
  lemma Bswap32IsFromLE(v: bv32)
    ensures Bswap32(v) == FromLE((v >> 24) as bv8, ((v >> 16) & 0xFF) as bv8, ((v >> 8) & 0xFF) as bv8, (v & 0xFF) as bv8)
  {
  }

  /** `bswap32` reverses the byte order of a value. */
  lemma Bswap32Reverses(v: bv32)
    ensures BytesLE(Bswap32(v)) == BytesBE(v)
  {
    Bswap32IsFromLE(v);
    BytesOfLE(Bswap32(v), (v >> 24) as bv8, ((v >> 16) & 0xFF) as bv8, ((v >> 8) & 0xFF) as bv8, (v & 0xFF) as bv8);
  }

  /** `bswap32` undoes itself. */
  lemma Bswap32Involution(v: bv32)
    ensures Bswap32(Bswap32(v)) == v
  {
  }

  /** Rotating left by 8 and then by 24 is a full turn. */
  lemma RolTurn(v: bv32)
    ensures Rol(Rol(v, 8), 24) == v && Rol(Rol(v, 24), 8) == v
  {
  }

  /** The little-endian swizzle. */
  function SwizzleLE(bgra: bv32): bv32
  {
    Rol(Bswap32(bgra), 24)
  }

  /** The big-endian swizzle. */
  function SwizzleBE(bgra: bv32): bv32
  {
    Rol(Bswap32(bgra), 8)
  }

  /** On a little-endian machine the pixel bytes B, G, R, A are stored back as R, G, B, A. */
  lemma SwizzleLEIsBgraToRgba(b: bv8, g: bv8, r: bv8, a: bv8)
    ensures BytesLE(SwizzleLE(FromLE(b, g, r, a))) == [r, g, b, a]
  {
    var v := SwizzleLE(FromLE(b, g, r, a));
    assert v == FromLE(r, g, b, a);
    BytesOfLE(v, r, g, b, a);
  }

  /** On a big-endian machine the pixel bytes B, G, R, A are stored back as R, G, B, A too. */
  lemma SwizzleBEIsBgraToRgba(b: bv8, g: bv8, r: bv8, a: bv8)
    ensures BytesBE(SwizzleBE(FromBE(b, g, r, a))) == [r, g, b, a]
  {
    var v := SwizzleBE(FromBE(b, g, r, a));
    assert v == FromLE(a, b, g, r);
    BytesOfLE(v, a, b, g, r);
  }
}
