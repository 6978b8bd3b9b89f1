/**
 * The UTF-8 helpers of the texture font: `utf8_surrogate_len`,
 * `utf8_strlen` and `utf8_to_utf32`.
 *
 * A `const char *` argument is a `Pointer`: either NULL, or an offset into a
 * byte buffer that holds a NUL-terminated string.  Bytes past the end of the
 * buffer read as 0, so a buffer without a terminator behaves as if one
 * followed it.  A C `char` is a byte here; the helpers only use it through
 * `& 0x80`-style masks and shifts, which see the same eight bits whether
 * `char` is signed or not.
 */
module Utf8 {
  /** A `const char *`: NULL, or byte `off` of a buffer. */
  datatype Pointer = Null | Ptr(buf: seq<bv8>, off: nat)

  /** Byte `i` of a buffer; past its end, the terminating NUL. */
  function At(s: seq<bv8>, i: nat): bv8
  {
    if i < |s| then s[i] else 0
  }

  /** `p[k]` for a non-NULL pointer. */
  function Byte(p: Pointer, k: nat): bv8
    requires p.Ptr?
  {
    At(p.buf, p.off + k)
  }

  /** The number of leading 1-bits of a byte, by its value range. */
  function LeadingOnes(b: bv8): (n: nat)
    ensures n <= 8
    ensures (n == 0) == (b & 0x80 == 0)
  {
    if b < 0x80 then 0
    else if b < 0xC0 then 1
    else if b < 0xE0 then 2
    else if b < 0xF0 then 3
    else if b < 0xF8 then 4
    else if b < 0xFC then 5
    else if b < 0xFE then 6
    else if b < 0xFF then 7
    else 8
  }

  /** Shifting out a leading 1-bit leaves one leading 1-bit fewer. */
  lemma LeadingOnesShift(b: bv8)
    requires b & 0x80 != 0
    ensures LeadingOnes(b << 1) == LeadingOnes(b) - 1
  {
  }

  /**
   * How many bytes the sequence starting with lead byte `b` takes: 1 for
   * ASCII, otherwise the number of leading 1-bits (so a stray continuation
   * byte counts as a sequence of one).
   */
  function StepLen(b: bv8): (n: nat)
    ensures 1 <= n <= 8
  {
    if b & 0x80 == 0 then 1 else LeadingOnes(b)
  }

  /**
   * `utf8_surrogate_len`: 0 for NULL, 1 for an ASCII byte, otherwise the
   * leading 1-bits of the first byte, counted by shifting them out.
   */
  method SurrogateLen(character: Pointer) returns (result: nat)
    ensures character.Null? ==> result == 0
    ensures character.Ptr? ==> result == StepLen(Byte(character, 0))
  {
    result := 0;
    if character.Null? {
      return;
    }
    var testChar := Byte(character, 0);
    if testChar & 0x80 == 0 {
      return 1;
    }
    while testChar & 0x80 != 0
      invariant result + LeadingOnes(testChar) == LeadingOnes(Byte(character, 0))
      decreases LeadingOnes(testChar)
    {
      LeadingOnesShift(testChar);
      testChar := testChar << 1;
      result := result + 1;
    }
  }

  /**
   * The number of steps of `StepLen` bytes that `utf8_strlen` takes from
   * byte `i` of `s` until it stands on a NUL.  A step may jump over the NUL
   * of a string that ends in a truncated sequence; the bytes past the
   * buffer read as NUL, so the count ends there.
   */
  function Utf8Count(s: seq<bv8>, i: nat): nat
    decreases |s| - i
  {
    if At(s, i) == 0 then 0 else 1 + Utf8Count(s, i + StepLen(At(s, i)))
  }

  /** `utf8_strlen`: the number of UTF-8 sequences before the terminator. */
  method Strlen(str: Pointer) returns (result: nat)
    requires str.Ptr?
    ensures result == Utf8Count(str.buf, str.off)
  {
    var ptr := str.off;
    result := 0;
    while At(str.buf, ptr) != 0
      invariant result + Utf8Count(str.buf, ptr) == Utf8Count(str.buf, str.off)
      decreases |str.buf| - ptr
    {
      var step := SurrogateLen(Ptr(str.buf, ptr));
      ptr := ptr + step;
      result := result + 1;
    }
  }

  /** What `utf8_to_utf32` returns for NULL: `-1` as a `uint32_t`. */
  const NullCodepoint: bv32 := 0xFFFF_FFFF

  /** What `utf8_to_utf32` returns for a byte that starts no sequence it knows. */
  const Replacement: bv32 := 0xFFFD

  /** The low six bits of a continuation byte. */
  function Cont(b: bv8): bv32
  {
    (b & 0x3F) as bv32
  }

  /**
   * `utf8_to_utf32`: decode the sequence at `p` by its lead byte, one to
   * five bytes long; continuation bytes are not checked, only masked.
   */
  function Utf8ToUtf32(p: Pointer): (r: bv32)
    ensures p.Null? ==> r == NullCodepoint
  {
    if p.Null? then NullCodepoint
    else
      var b0 := Byte(p, 0);
      if b0 & 0x80 == 0 then b0 as bv32
      else if b0 & 0xE0 == 0xC0 then ((b0 & 0x3F) as bv32 << 6) | Cont(Byte(p, 1))
      else if b0 & 0xF0 == 0xE0 then ((b0 & 0x1F) as bv32 << 12) | (Cont(Byte(p, 1)) << 6) | Cont(Byte(p, 2))
      else if b0 & 0xF8 == 0xF0 then
        ((b0 & 0x0F) as bv32 << 18) | (Cont(Byte(p, 1)) << 12) | (Cont(Byte(p, 2)) << 6) | Cont(Byte(p, 3))
      else if b0 & 0xFC == 0xF8 then
        ((b0 & 0x07) as bv32 << 24) | (Cont(Byte(p, 1)) << 18) | (Cont(Byte(p, 2)) << 12)
          | (Cont(Byte(p, 3)) << 6) | Cont(Byte(p, 4))
      else Replacement
  }

  /**
   * The lead-byte masks of `utf8_to_utf32` are one bit wider than the
   * payload of the lead byte (`0x3F` for `110xxxxx`, and so on), but the
   * extra bit is the 0 that ends the run of 1-bits, so each mask keeps
   * exactly the payload bits.
   */
  lemma LeadMasksArePayload(b: bv8)
    ensures b & 0xE0 == 0xC0 ==> b & 0x3F == b & 0x1F
    ensures b & 0xF0 == 0xE0 ==> b & 0x1F == b & 0x0F
    ensures b & 0xF8 == 0xF0 ==> b & 0x0F == b & 0x07
    ensures b & 0xFC == 0xF8 ==> b & 0x07 == b & 0x03
  {
  }

  /** A lead byte of a known sequence has `StepLen` equal to that sequence's length. */
  lemma StepLenOfLead(b: bv8)
    ensures b & 0xE0 == 0xC0 ==> StepLen(b) == 2
    ensures b & 0xF0 == 0xE0 ==> StepLen(b) == 3
    ensures b & 0xF8 == 0xF0 ==> StepLen(b) == 4
    ensures b & 0xFC == 0xF8 ==> StepLen(b) == 5
  {
  }

  /**
   * Continuation bytes (`10xxxxxx`) and the lead bytes `0xFC` to `0xFF` start
   * no sequence the decoder knows: they decode to U+FFFD.
   */
  lemma InvalidLeadIsReplacement(p: Pointer)
    requires p.Ptr? && ((0x80 <= Byte(p, 0) < 0xC0) || Byte(p, 0) >= 0xFC)
    ensures Utf8ToUtf32(p) == Replacement
  {
  }

  // ---------------------------------------------------------------------------
  // The encoding of section 3 of RFC 3629, as the reference the decoder inverts

  /** The RFC 3629 encoding of a code point below U+110000. */
  function Encode(cp: bv32): (e: seq<bv8>)
    requires cp < 0x11_0000
    ensures 1 <= |e| <= 4
  {
    if cp < 0x80 then [cp as bv8]
    else if cp < 0x800 then [(0xC0 | (cp >> 6)) as bv8, (0x80 | (cp & 0x3F)) as bv8]
    else if cp < 0x1_0000 then
      [(0xE0 | (cp >> 12)) as bv8, (0x80 | ((cp >> 6) & 0x3F)) as bv8, (0x80 | (cp & 0x3F)) as bv8]
    else
      [(0xF0 | (cp >> 18)) as bv8, (0x80 | ((cp >> 12) & 0x3F)) as bv8,
       (0x80 | ((cp >> 6) & 0x3F)) as bv8, (0x80 | (cp & 0x3F)) as bv8]
  }

  /** The obsolete five-byte form of section 2 of RFC 2279, for code points U+200000 to U+3FFFFFF. */
  function Encode5(cp: bv32): (e: seq<bv8>)
    requires 0x20_0000 <= cp < 0x400_0000
    ensures |e| == 5
  {
    [(0xF8 | (cp >> 24)) as bv8, (0x80 | ((cp >> 18) & 0x3F)) as bv8, (0x80 | ((cp >> 12) & 0x3F)) as bv8,
     (0x80 | ((cp >> 6) & 0x3F)) as bv8, (0x80 | (cp & 0x3F)) as bv8]
  }

  lemma DecodeOne(cp: bv32, q: seq<bv8>)
    requires cp < 0x80
    ensures Utf8ToUtf32(Ptr(Encode(cp) + q, 0)) == cp
  {
    assert (Encode(cp) + q)[0] == cp as bv8;
  }

  /** The bit-level content of `DecodeTwo`, on the two bytes alone. */
  lemma TwoBytes(cp: bv32)
    requires 0x80 <= cp < 0x800
    ensures var b0, b1 := (0xC0 | (cp >> 6)) as bv8, (0x80 | (cp & 0x3F)) as bv8;
      b0 & 0x80 != 0 && b0 & 0xE0 == 0xC0 && ((b0 & 0x3F) as bv32 << 6) | Cont(b1) == cp
  {
  }

  lemma DecodeTwo(cp: bv32, q: seq<bv8>)
    requires 0x80 <= cp < 0x800
    ensures Utf8ToUtf32(Ptr(Encode(cp) + q, 0)) == cp
  {
    TwoBytes(cp);
    var b0, b1 := (0xC0 | (cp >> 6)) as bv8, (0x80 | (cp & 0x3F)) as bv8;
    var p := Ptr(Encode(cp) + q, 0);
    assert Byte(p, 0) == b0 && Byte(p, 1) == b1;
  }

  /** The bit-level content of `DecodeThree`, on the three bytes alone. */
  lemma ThreeBytes(cp: bv32)
    requires 0x800 <= cp < 0x1_0000
    ensures var b0, b1, b2 := (0xE0 | (cp >> 12)) as bv8, (0x80 | ((cp >> 6) & 0x3F)) as bv8, (0x80 | (cp & 0x3F)) as bv8;
      b0 & 0x80 != 0 && b0 & 0xE0 != 0xC0 && b0 & 0xF0 == 0xE0
      && ((b0 & 0x1F) as bv32 << 12) | (Cont(b1) << 6) | Cont(b2) == cp
  {
  }

  lemma DecodeThree(cp: bv32, q: seq<bv8>)
    requires 0x800 <= cp < 0x1_0000
    ensures Utf8ToUtf32(Ptr(Encode(cp) + q, 0)) == cp
  {
    ThreeBytes(cp);
    var b0, b1, b2 := (0xE0 | (cp >> 12)) as bv8, (0x80 | ((cp >> 6) & 0x3F)) as bv8, (0x80 | (cp & 0x3F)) as bv8;
    var p := Ptr(Encode(cp) + q, 0);
    assert Byte(p, 0) == b0 && Byte(p, 1) == b1 && Byte(p, 2) == b2;
  }

  /** The bit-level content of `DecodeFour`, on the four bytes alone. */
  lemma FourBytes(cp: bv32)
    requires 0x1_0000 <= cp < 0x11_0000
    ensures var b0, b1, b2, b3 := (0xF0 | (cp >> 18)) as bv8, (0x80 | ((cp >> 12) & 0x3F)) as bv8,
                                  (0x80 | ((cp >> 6) & 0x3F)) as bv8, (0x80 | (cp & 0x3F)) as bv8;
      b0 & 0x80 != 0 && b0 & 0xE0 != 0xC0 && b0 & 0xF0 != 0xE0 && b0 & 0xF8 == 0xF0
      && ((b0 & 0x0F) as bv32 << 18) | (Cont(b1) << 12) | (Cont(b2) << 6) | Cont(b3) == cp
  {
  }

  lemma DecodeFour(cp: bv32, q: seq<bv8>)
    requires 0x1_0000 <= cp < 0x11_0000
    ensures Utf8ToUtf32(Ptr(Encode(cp) + q, 0)) == cp
  {
    FourBytes(cp);
    var b0, b1, b2, b3 := (0xF0 | (cp >> 18)) as bv8, (0x80 | ((cp >> 12) & 0x3F)) as bv8,
                          (0x80 | ((cp >> 6) & 0x3F)) as bv8, (0x80 | (cp & 0x3F)) as bv8;
    var p := Ptr(Encode(cp) + q, 0);
    assert Byte(p, 0) == b0 && Byte(p, 1) == b1 && Byte(p, 2) == b2 && Byte(p, 3) == b3;
  }

  /**
   * Round trip: `utf8_to_utf32` decodes the RFC 3629 encoding of every code
   * point below U+110000 back to that code point, whatever follows it.
   */
  lemma DecodeEncode(cp: bv32, q: seq<bv8>)
    requires cp < 0x11_0000
    ensures Utf8ToUtf32(Ptr(Encode(cp) + q, 0)) == cp
  {
    if cp < 0x80 {
      DecodeOne(cp, q);
    } else if cp < 0x800 {
      DecodeTwo(cp, q);
    } else if cp < 0x1_0000 {
      DecodeThree(cp, q);
    } else {
      DecodeFour(cp, q);
    }
  }

  /** The bit-level content of `DecodeEncode5`, on the five bytes alone. */
  lemma FiveBytes(cp: bv32)
    requires 0x20_0000 <= cp < 0x400_0000
    ensures var b0, b1, b2, b3, b4 := (0xF8 | (cp >> 24)) as bv8, (0x80 | ((cp >> 18) & 0x3F)) as bv8,
                                      (0x80 | ((cp >> 12) & 0x3F)) as bv8, (0x80 | ((cp >> 6) & 0x3F)) as bv8,
                                      (0x80 | (cp & 0x3F)) as bv8;
      b0 & 0x80 != 0 && b0 & 0xE0 != 0xC0 && b0 & 0xF0 != 0xE0 && b0 & 0xF8 != 0xF0 && b0 & 0xFC == 0xF8
      && ((b0 & 0x07) as bv32 << 24) | (Cont(b1) << 18) | (Cont(b2) << 12) | (Cont(b3) << 6) | Cont(b4) == cp
  {
  }

  /** The decoder also inverts the five-byte form of RFC 2279. */
  lemma DecodeEncode5(cp: bv32, q: seq<bv8>)
    requires 0x20_0000 <= cp < 0x400_0000
    ensures Utf8ToUtf32(Ptr(Encode5(cp) + q, 0)) == cp
  {
    FiveBytes(cp);
    var b0, b1, b2, b3, b4 := (0xF8 | (cp >> 24)) as bv8, (0x80 | ((cp >> 18) & 0x3F)) as bv8,
                              (0x80 | ((cp >> 12) & 0x3F)) as bv8, (0x80 | ((cp >> 6) & 0x3F)) as bv8,
                              (0x80 | (cp & 0x3F)) as bv8;
    var p := Ptr(Encode5(cp) + q, 0);
    assert Byte(p, 0) == b0 && Byte(p, 1) == b1 && Byte(p, 2) == b2 && Byte(p, 3) == b3 && Byte(p, 4) == b4;
  }

  /** The lead byte of an encoding tells its length, and only U+0000 encodes to a NUL lead byte. */
  lemma StepLenEncode(cp: bv32)
    requires cp < 0x11_0000
    ensures StepLen(Encode(cp)[0]) == |Encode(cp)|
    ensures (Encode(cp)[0] == 0) == (cp == 0)
  {
  }

  /** The concatenated encodings of a sequence of code points. */
  function EncodeAll(cps: seq<bv32>): seq<bv8>
    requires forall k :: 0 <= k < |cps| ==> cps[k] < 0x11_0000
  {
    if cps == [] then [] else Encode(cps[0]) + EncodeAll(cps[1..])
  }

  /** Counting from byte `|p| + i` of `p + s` is counting from byte `i` of `s`. */
  lemma {:induction false} CountShift(p: seq<bv8>, s: seq<bv8>, i: nat)
    ensures Utf8Count(p + s, |p| + i) == Utf8Count(s, i)
    decreases |s| - i
  {
    assert At(p + s, |p| + i) == At(s, i);
    if At(s, i) != 0 {
      CountShift(p, s, i + StepLen(At(s, i)));
    }
  }

  /**
   * `utf8_strlen` of the RFC 3629 encoding of non-NUL code points is the
   * number of code points.
   */
  lemma {:induction false} CountEncodeAll(cps: seq<bv32>)
    requires forall k :: 0 <= k < |cps| ==> 0 < cps[k] < 0x11_0000
    ensures Utf8Count(EncodeAll(cps), 0) == |cps|
    decreases |cps|
  {
    if cps != [] {
      var e := Encode(cps[0]);
      var rest := EncodeAll(cps[1..]);
      StepLenEncode(cps[0]);
      assert At(e + rest, 0) == e[0];
      CountShift(e, rest, 0);
      CountEncodeAll(cps[1..]);
    }
  }
}
