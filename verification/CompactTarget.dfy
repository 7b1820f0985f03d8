/** The compact ("bits") encoding of 256-bit targets, its two decoders, and what encoding loses. */
module CompactTarget {
  import opened Powers
  import opened Limbs
  import opened UintShift

  // ---- Reference form ------------------------------------------------------------------------------

  /** The size byte of a target: the number of bytes it takes once its sign bit is kept clear. */
  function SizeOf(x: nat): (e: nat)
  {
    if x == 0 then 0 else BitLen(x) / 8 + 1
  }

  /** How many low bits the encoding drops. */
  function Dropped(x: nat): (t: nat)
  {
    if SizeOf(x) <= 3 then 0 else 8 * (SizeOf(x) - 3)
  }

  /** The top three of `size` bytes, padded with zero bytes when there are fewer. */
  function Leading(x: nat, size: nat): (c: nat)
  {
    if size <= 3 then Shl(x, 8 * (3 - size)) else Shr(x, 8 * (size - 3))
  }

  function MantissaOf(x: nat): (m: nat)
  {
    Leading(x, SizeOf(x))
  }

  function Encode(x: nat): (bits: nat)
  {
    0x100_0000 * SizeOf(x) + MantissaOf(x)
  }

  /** The value an encoded target stands for: `x` without its dropped bits. */
  function Rounded(x: nat): (d: nat)
  {
    x - Low(x, Dropped(x))
  }

  /** The mantissa and bit exponent both decoders read from the compact form. */
  function Unpack(bits: nat): (r: (nat, nat))
  {
    var e, m := bits / 0x100_0000, bits % 0x100_0000;
    if e <= 3 then (Shr(m, 8 * (3 - e)), 0) else (m, 8 * (e - 3))
  }

  /** What `from_compact_target_bits` computes: a set sign bit means zero, and the shift is one of 256 bits. */
  function Decode(bits: nat): (d: nat)
  {
    var (m, s) := Unpack(bits);
    if m > 0x7f_ffff then 0 else Shl(m, s % 256) % B(4)
  }

  /**
   * What the bridge's `calculate_target` computes; it casts the shift to 32 bits, which matters only for bits beyond
   * u32.
   */
  function BridgeDecode(bits: nat): (d: nat)
  {
    var (m, s) := Unpack(bits);
    Shl(m, s % 0x1_0000_0000)
  }

  /** Bits of 32 bits have a size byte, so the cast keeps the shift. */
  lemma ShiftOfU32(bits: nat)
    requires bits < 0x1_0000_0000
    ensures Unpack(bits).1 <= 2016 && BridgeDecode(bits) == Shl(Unpack(bits).0, Unpack(bits).1)
  {
    assert bits / 0x100_0000 < 256;
  }

  // ---- Bounds that follow from the size byte -----------------------------------------------------------

  lemma SizeBounds(x: nat)
    requires x > 0
    ensures SizeOf(x) >= 1
    ensures x < Pow2(8 * SizeOf(x) - 1)
    ensures SizeOf(x) >= 2 ==> Pow2(8 * SizeOf(x) - 9) <= x
  {
    BitLenBounds(x);
    var k, e := BitLen(x), SizeOf(x);
    Pow2Mono(k, 8 * e - 1);
    if e >= 2 {
      Pow2Mono(8 * e - 9, k - 1);
    }
  }

  /** The two bounds determine the size. */
  lemma SizeUnique(x: nat, e: nat)
    requires x > 0 && e >= 1 && x < Pow2(8 * e - 1) && (e >= 2 ==> Pow2(8 * e - 9) <= x)
    ensures SizeOf(x) == e
  {
    BitLenAtMost(x, 8 * e - 1);
    if e >= 2 {
      BitLenBounds(x);
      if BitLen(x) < 8 * e - 8 {
        Pow2Mono(BitLen(x), 8 * e - 9);
        assert false;
      }
    }
  }

  lemma SizeMono(x: nat, y: nat)
    requires x <= y
    ensures SizeOf(x) <= SizeOf(y)
  {
    BitLenBounds(y);
    BitLenAtMost(x, BitLen(y));
  }

  // ---- Shifts that cancel ------------------------------------------------------------------------------

  lemma {:induction false} ShrShl(x: nat, k: nat)
    ensures Shr(Shl(x, k), k) == x
  {
    if k != 0 {
      ShrShl(x, k - 1);
    }
  }

  lemma {:induction false} ShlShr(x: nat, k: nat)
    ensures Shl(Shr(x, k), k) == x - Low(x, k)
  {
    ShrLow(x, k);
    ShlIsMul(Shr(x, k), k);
  }

  lemma {:induction false} ShrShr(x: nat, j: nat, k: nat)
    ensures Shr(Shr(x, j), k) == Shr(x, j + k)
    decreases j
  {
    if j != 0 {
      ShrShr(x / 2, j - 1, k);
    }
  }

  lemma {:induction false} ShlShl(x: nat, j: nat, k: nat)
    ensures Shl(Shl(x, j), k) == Shl(x, j + k)
    decreases k
  {
    if k != 0 {
      ShlShl(x, j, k - 1);
    }
  }

  lemma ShlBound(x: nat, j: nat, k: nat)
    requires x < Pow2(j)
    ensures Shl(x, k) < Pow2(j + k)
  {
    ShlIsMul(x, k);
    Pow2Add(j, k);
    LeadingDigit(0, Pow2(k), x, Pow2(j));
  }

  lemma ShlAtLeast(x: nat, j: nat, k: nat)
    requires Pow2(j) <= x
    ensures Pow2(j + k) <= Shl(x, k)
  {
    ShlIsMul(x, k);
    Pow2Add(j, k);
    MulMono(Pow2(j), x, Pow2(k));
  }

  lemma ShrAtLeast(x: nat, j: nat, k: nat)
    requires Pow2(j + k) <= x
    ensures Pow2(j) <= Shr(x, k)
  {
    ShrLow(x, k);
    Pow2Add(j, k);
    if Shr(x, k) < Pow2(j) {
      LeadingDigit(Low(x, k), Pow2(k), Shr(x, k), Pow2(j));
      assert false;
    }
  }

  /** The mantissa is three bytes with a clear sign bit and, but for zero, at least sixteen significant bits. */
  lemma MantissaBounds(x: nat)
    ensures MantissaOf(x) <= 0x7f_ffff
    ensures SizeOf(x) >= 2 ==> MantissaOf(x) >= 0x8000
  {
    Pow2Of23();
    var e := SizeOf(x);
    if x == 0 {
      ShlZero(8 * (3 - e));
    } else if e <= 3 {
      SmallMantissa(x, e);
    } else {
      SizeBounds(x);
      ShrBound(x, 23, 8 * (e - 3));
      ShrAtLeast(x, 15, 8 * (e - 3));
    }
  }

  lemma SmallMantissa(x: nat, e: nat)
    requires x > 0 && e == SizeOf(x) <= 3
    ensures Shl(x, 8 * (3 - e)) < Pow2(23) && (e >= 2 ==> Pow2(15) <= Shl(x, 8 * (3 - e)))
  {
    SizeBounds(x);
    ShlBound(x, 8 * e - 1, 8 * (3 - e));
    if e >= 2 {
      ShlAtLeast(x, 8 * e - 9, 8 * (3 - e));
    }
  }

  lemma Pow2Of23()
    ensures Pow2(15) == 0x8000 && Pow2(23) == 0x80_0000 && Pow2(24) == 0x100_0000
  {
    Pow2Constants();
    assert Pow2(24) == 2 * Pow2(23);
    assert Pow2(16) == 2 * Pow2(15);
  }

  lemma {:induction false} ShlZero(k: nat)
    ensures Shl(0, k) == 0
  {
    if k != 0 {
      ShlZero(k - 1);
    }
  }

  // ---- Decoding what was encoded -----------------------------------------------------------------------

  lemma UnpackEncode(x: nat)
    ensures Unpack(Encode(x)) == if SizeOf(x) <= 3 then (x, 0) else (Shr(x, Dropped(x)), Dropped(x))
  {
    MantissaBounds(x);
    var e, m := SizeOf(x), MantissaOf(x);
    assert Encode(x) / 0x100_0000 == e && Encode(x) % 0x100_0000 == m;
    if e <= 3 {
      ShrShl(x, 8 * (3 - e));
    }
  }

  /** A clear sign bit and a shift that fits: the decoder only shifts. */
  lemma DecodeShifts(bits: nat, m: nat, s: nat, d: nat, modulus: nat)
    requires Unpack(bits) == (m, s) && m <= 0x7f_ffff && s < 256 && Shl(m, s) == d < modulus == B(4)
    ensures Decode(bits) == d
  {
    DivModUnique(d, modulus, 0, d);
  }

  lemma BridgeShifts(bits: nat, m: nat, s: nat, d: nat)
    requires Unpack(bits) == (m, s) && s < 0x1_0000_0000 && Shl(m, s) == d
    ensures BridgeDecode(bits) == d
  {
  }

  /** Both decoders recover the rounded target from its encoding. */
  lemma DecodeEncode(x: nat)
    requires x < B(4)
    ensures BridgeDecode(Encode(x)) == Rounded(x)
    ensures Decode(Encode(x)) == Rounded(x)
  {
    UnpackEncode(x);
    MantissaBounds(x);
    SmallTargets(x);
    ShlShr(x, Dropped(x));
    DroppedAtMost(x);
    var (m, s) := Unpack(Encode(x));
    BridgeShifts(Encode(x), m, s, Rounded(x));
    DecodeShifts(Encode(x), m, s, Rounded(x), B(4));
  }

  lemma DroppedAtMost(x: nat)
    requires x < B(4)
    ensures Dropped(x) <= 240
  {
    BIsPow2(4);
    BitLenAtMost(x, 256);
  }

  lemma SmallTargets(x: nat)
    ensures SizeOf(x) <= 3 ==> x <= 0x7f_ffff
  {
    Pow2Of23();
    if x > 0 && SizeOf(x) <= 3 {
      SizeBounds(x);
      Pow2Mono(8 * SizeOf(x) - 1, 23);
    }
  }

  /** Encoding loses less than one part in 2^15. */
  lemma RoundedClose(x: nat)
    ensures Rounded(x) <= x
    ensures x > 0 ==> (x - Rounded(x)) * 0x8000 < Rounded(x)
  {
    var e, t := SizeOf(x), Dropped(x);
    if x > 0 && e > 3 {
      MantissaBounds(x);
      ShlShr(x, t);
      ShlIsMul(Shr(x, t), t);
      MulMono(0x8000, Shr(x, t), Pow2(t));
    }
  }

  /** A rounded target lies in the same size class. */
  lemma RoundedSize(x: nat)
    ensures SizeOf(Rounded(x)) == SizeOf(x)
  {
    var e, t := SizeOf(x), Dropped(x);
    if x > 0 && e > 3 {
      RoundedBounds(x, e, t);
      SizeUnique(Rounded(x), e);
    }
  }

  lemma RoundedBounds(x: nat, e: nat, t: nat)
    requires x > 0 && e == SizeOf(x) > 3 && t == 8 * (e - 3)
    ensures Pow2(8 * e - 9) <= x - Low(x, t) < Pow2(8 * e - 1)
  {
    SizeBounds(x);
    ShlShr(x, t);
    ShrAtLeast(x, 8 * e - 9 - t, t);
    ShlAtLeast(Shr(x, t), 8 * e - 9 - t, t);
  }

  /** Encoding is stable: a decoded target encodes to the same bits. */
  lemma EncodeRounded(x: nat)
    ensures Encode(Rounded(x)) == Encode(x)
    ensures Rounded(Rounded(x)) == Rounded(x)
  {
    RoundedSize(x);
    var t := Dropped(x);
    ShlShr(x, t);
    ShrShl(Shr(x, t), t);
    ShlShr(Rounded(x), t);
  }

  /** Rounding keeps the order of targets, and so does the encoding read as a number. */
  lemma RoundedMono(x: nat, y: nat)
    requires x <= y
    ensures Rounded(x) <= Rounded(y)
    ensures Encode(x) <= Encode(y)
  {
    SizeMono(x, y);
    MantissaBounds(x);
    if SizeOf(x) == SizeOf(y) {
      var t := Dropped(x);
      ShrMono(x, y, t);
      ShlShr(x, t);
      ShlShr(y, t);
      ShlMono(Shr(x, t), Shr(y, t), t);
      if SizeOf(x) <= 3 {
        ShlMono(x, y, 8 * (3 - SizeOf(x)));
      }
    } else {
      var e := SizeOf(y);
      SmallerClass(x, y);
    }
  }

  lemma SmallerClass(x: nat, y: nat)
    requires SizeOf(x) < SizeOf(y)
    ensures Rounded(x) <= Rounded(y)
  {
    if x > 0 {
      SizeBounds(x);
      RoundedSize(y);
      assert Rounded(y) > 0;
      SizeBounds(Rounded(y));
      Pow2Mono(8 * SizeOf(x) - 1, 8 * SizeOf(y) - 9);
    }
  }

  lemma {:induction false} ShrMono(x: nat, y: nat, k: nat)
    requires x <= y
    ensures Shr(x, k) <= Shr(y, k)
    decreases k
  {
    if k != 0 {
      ShrMono(x / 2, y / 2, k - 1);
    }
  }

  lemma {:induction false} ShlMono(x: nat, y: nat, k: nat)
    requires x <= y
    ensures Shl(x, k) <= Shl(y, k)
  {
    if k != 0 {
      ShlMono(x, y, k - 1);
    }
  }

  // ---- Nothing representable lies between -----------------------------------------------------------------

  /** A value of the form m * 256^j with a 23-bit m, at most x, is at most the rounded x. */
  lemma RoundedIsBest(x: nat, m: nat, j: nat)
    requires m <= 0x7f_ffff && Shl(m, 8 * j) <= x
    ensures Shl(m, 8 * j) <= Rounded(x)
  {
    var e, t := SizeOf(x), Dropped(x);
    if e > 3 {
      if j < e - 3 {
        Pow2Of23();
        ShlBound(m, 23, 8 * j);
        Pow2Mono(23 + 8 * j, 8 * e - 9);
        RoundedSize(x);
        SizeBounds(Rounded(x));
      } else {
        ShlShl(m, 8 * j - t, t);
        ShrMono(Shl(m, 8 * j), x, t);
        ShrShl(Shl(m, 8 * j - t), t);
        ShlMono(Shl(m, 8 * j - t), Shr(x, t), t);
        ShlShr(x, t);
      }
    }
  }

  /** No compact form decodes to a value strictly between the rounded target and the target. */
  lemma NothingBetween(x: nat, bits: nat)
    requires x < B(4) && Decode(bits) <= x
    ensures Decode(bits) <= Rounded(x)
  {
    var (m, s) := Unpack(bits);
    var k := s % 256 / 8;
    assert s % 256 == 8 * k;
    if m <= 0x7f_ffff {
      var m', j := WrappedForm(m, k);
      RoundedIsBest(x, m', j);
    }
  }

  /** A 23-bit mantissa shifted within 256 bits is again a 23-bit mantissa times a power of 256. */
  lemma WrappedForm(m: nat, j: nat) returns (m': nat, j': nat)
    requires m <= 0x7f_ffff && j < 32
    ensures m' <= 0x7f_ffff && Shl(m', 8 * j') == Shl(m, 8 * j) % B(4)
  {
    j' := j;
    m' := Low(m, 256 - 8 * j);
    ShrLow(m, 256 - 8 * j);
    ShlIsMul(m, 8 * j);
    ShlIsMul(m', 8 * j);
    BIsPow2(4);
    Pow2Add(256 - 8 * j, 8 * j);
    WrapAlgebra(m, Shr(m, 256 - 8 * j), m', Pow2(256 - 8 * j), Pow2(8 * j), B(4));
  }

  lemma WrapAlgebra(m: nat, q: nat, l: nat, d: nat, p: nat, b: nat)
    requires m == q * d + l && l < d && b == d * p && p > 0
    ensures b > 0 && m * p % b == l * p
  {
    LeadingDigit(0, p, l, d);
    assert m * p == q * b + l * p;
    DivModUnique(m * p, b, q, l * p);
  }

  // ---- Where the two decoders part -------------------------------------------------------------------------

  /** Without a sign bit, the decoders agree exactly when the shifted mantissa fits 256 bits. */
  lemma AgreeByValue(m: nat, s: nat)
    requires m <= 0x7f_ffff
    ensures Shl(m, s % 256) % B(4) == Shl(m, s) <==> Shl(m, s) < B(4)
  {
    if Shl(m, s) < B(4) {
      if m == 0 {
        ShlZero(s);
        ShlZero(s % 256);
      } else {
        TooFar(m, s);
        DivModUnique(Shl(m, s), B(4), 0, Shl(m, s));
      }
    }
  }

  lemma TooFar(m: nat, s: nat)
    requires m > 0
    ensures s >= 256 ==> Shl(m, s) >= B(4)
  {
    if s >= 256 {
      ShlMono(1, m, s);
      ShlIsMul(1, s);
      BIsPow2(4);
      Pow2Mono(256, s);
    }
  }

  lemma FitsWidth(m: nat, s: nat, w: nat)
    requires m > 0
    ensures Shl(m, s) < Pow2(w) <==> BitLen(m) + s <= w
  {
    BitLenBounds(m);
    var k := BitLen(m);
    if k + s <= w {
      ShlBound(m, k, s);
      Pow2Mono(k + s, w);
    } else {
      ShlAtLeast(m, k - 1, s);
      Pow2Mono(w, k - 1 + s);
    }
  }

  lemma FitsByBits(m: nat, s: nat)
    requires m > 0
    ensures Shl(m, s) < B(4) <==> BitLen(m) + s <= 256
  {
    var n := 4;
    FitsWidth(m, s, 64 * n);
    BIsPow2(n);
  }

  /**
   * On 32-bit compact forms the two decoders agree exactly when the mantissa is zero, or its sign bit is clear and
   * mantissa and exponent together need at most 256 bits.
   */
  lemma DecodersAgreeExactly(bits: nat)
    requires bits < 0x1_0000_0000
    ensures var (m, s) := Unpack(bits);
            Decode(bits) == BridgeDecode(bits) <==> m == 0 || (m <= 0x7f_ffff && BitLen(m) + s <= 256)
  {
    var (m, s) := Unpack(bits);
    ShiftOfU32(bits);
    if m > 0x7f_ffff {
      ShlMono(1, m, s);
      ShlIsMul(1, s);
    } else {
      AgreeByValue(m, s);
      if m == 0 {
        ShlZero(s);
      } else {
        FitsByBits(m, s);
      }
    }
  }

  /** Both ways of differing: a set sign bit, and a clear one with a target beyond 256 bits. */
  lemma DecodersDiffer()
    ensures Decode(0x0480_0000) != BridgeDecode(0x0480_0000)
    ensures Decode(0x2301_0000) != BridgeDecode(0x2301_0000)
  {
    var sign, far := 0x0480_0000, 0x2301_0000;
    assert Unpack(sign) == (0x80_0000, 8) && Unpack(far) == (0x1_0000, 256);
    DecodersAgreeExactly(sign);
    DecodersAgreeExactly(far);
    BitLenBounds(0x1_0000);
  }

  // ---- The code --------------------------------------------------------------------------------------------

  /** `compact_target_bits`. */
  method CompactTargetBits(a: seq<u64>) returns (bits: nat)
    requires |a| == 4
    ensures bits == Encode(Val(a))
    ensures bits < 0x1_0000_0000
  {
    var k := Bits(a);
    var size := (k + 7) / 8;
    var compact;
    if size <= 3 {
      compact := WordShl(a[0], 8 * (3 - size)) % 0x1_0000_0000;
      SmallCompact(a, k, size);
    } else {
      var bn, _ := OverflowingShr(a, 8 * (size - 3));
      compact := bn[0] % 0x1_0000_0000;
      DivModUnique(8 * (size - 3), 64 * |a|, 0, 8 * (size - 3));
      LargeCompact(a, bn, k, size);
    }
    ValBound(a);
    NormalizedCompact(Val(a), k, size, compact);
    if compact / 0x80_0000 % 2 != 0 {
      compact, size := compact / 256, size + 1;
    }
    bits := WithSize(compact, size);
  }

  /** `compact | (size << 24)`. */
  function WithSize(compact: nat, size: nat): (bits: nat)
    requires compact < 0x100_0000
    ensures bits == 0x100_0000 * size + compact
  {
    Pow2Of23();
    OrDisjoint(size, compact, 24);
    Or(compact, size * 0x100_0000)
  }

  /** Three bytes, the sign bit set exactly when x fills its bytes. */
  ghost predicate ThreeBytes(c: nat, full: bool)
  {
    c < 0x100_0000 && (c >= 0x80_0000 <==> full)
  }

  /** k is the bit length of x, said by its bounds. */
  ghost predicate HasBits(x: nat, k: nat)
  {
    if k == 0 then x == 0 else Pow2(k - 1) <= x < Pow2(k)
  }

  lemma LeadingBounds(x: nat, k: nat, size: nat)
    requires HasBits(x, k) && size == (k + 7) / 8
    ensures ThreeBytes(Leading(x, size), x > 0 && k == 8 * size)
  {
    if k == 0 {
      ShlZero(8 * (3 - size));
    } else if size <= 3 {
      LeadingSmall(x, k, size);
    } else {
      LeadingLarge(x, k, size);
    }
  }

  lemma ByPowers(c: nat, b: nat)
    requires 23 <= b <= 24 && c < Pow2(b) && (b == 24 ==> Pow2(b - 1) <= c)
    ensures ThreeBytes(c, b == 24)
  {
    Pow2Of23();
  }

  lemma LeadingSmall(x: nat, k: nat, size: nat)
    requires HasBits(x, k) && 0 < size == (k + 7) / 8 <= 3
    ensures ThreeBytes(Shl(x, 8 * (3 - size)), k == 8 * size)
  {
    var b := if k == 8 * size then 24 else 23;
    ShlBound(x, k, 8 * (3 - size));
    Pow2Mono(k + 8 * (3 - size), b);
    if b == 24 {
      ShlAtLeast(x, k - 1, 8 * (3 - size));
    }
    ByPowers(Shl(x, 8 * (3 - size)), b);
  }

  lemma LeadingLarge(x: nat, k: nat, size: nat)
    requires HasBits(x, k) && size == (k + 7) / 8 > 3
    ensures ThreeBytes(Shr(x, 8 * (size - 3)), k == 8 * size)
  {
    var b := if k == 8 * size then 24 else 23;
    Pow2Mono(k, b + 8 * (size - 3));
    ShrBound(x, b, 8 * (size - 3));
    if b == 24 {
      ShrAtLeast(x, b - 1, 8 * (size - 3));
    }
    ByPowers(Shr(x, 8 * (size - 3)), b);
  }

  /** Clearing the sign bit by moving one byte down reaches the reference form. */
  lemma NormalizedCompact(x: nat, k: nat, size: nat, c: nat)
    requires x < B(4) && k == BitLen(x) && size == (k + 7) / 8 && c == Leading(x, size)
    ensures c < 0x100_0000 && size <= 32
    ensures c / 0x80_0000 % 2 != 0 ==> size + 1 == SizeOf(x) && c / 256 == MantissaOf(x)
    ensures c / 0x80_0000 % 2 == 0 ==> size == SizeOf(x) && c == MantissaOf(x)
  {
    FitsSize(x);
    BitsOf(x, k);
    SizeFrom(x, k, size);
    LeadingBounds(x, k, size);
    SignBit(c);
    DropByte(x, size);
  }

  lemma SizeFrom(x: nat, k: nat, size: nat)
    requires k == BitLen(x) && size == (k + 7) / 8
    ensures SizeOf(x) == if x > 0 && k == 8 * size then size + 1 else size
  {
    BitsOf(x, k);
  }

  lemma SignBit(c: nat)
    requires c < 0x100_0000
    ensures c / 0x80_0000 % 2 != 0 <==> c >= 0x80_0000
  {
  }

  lemma BitsOf(x: nat, k: nat)
    requires k == BitLen(x)
    ensures HasBits(x, k)
    ensures SizeOf(x) == if x > 0 && k == 8 * ((k + 7) / 8) then (k + 7) / 8 + 1 else (k + 7) / 8
  {
    BitLenBounds(x);
  }

  lemma FitsSize(x: nat)
    requires x < B(4)
    ensures BitLen(x) <= 256
  {
    BIsPow2(4);
    BitLenAtMost(x, 256);
  }

  lemma DropByte(x: nat, size: nat)
    ensures Leading(x, size) / 256 == Leading(x, size + 1)
  {
    var byte := 8;
    ByteDown(Leading(x, size), byte);
    if size < 3 {
      ShlShl(x, 8 * (2 - size), byte);
      ShrShl(Shl(x, 8 * (2 - size)), byte);
    } else if size > 3 {
      ShrShr(x, 8 * (size - 3), byte);
    }
  }

  lemma ByteDown(c: nat, byte: nat)
    requires byte == 8
    ensures Shr(c, byte) == c / 256
  {
    ShrIsDiv(c, byte);
    Pow2Constants();
  }

  lemma FewBits(x: nat, k: nat)
    requires BitLen(x) <= k <= 64
    ensures x < 0x1_0000_0000_0000_0000
  {
    BitLenBounds(x);
    Pow2Mono(BitLen(x), 64);
    Pow2Constants();
  }

  lemma LeadingFits(x: nat, k: nat, size: nat)
    requires k == BitLen(x) && size == (k + 7) / 8
    ensures Leading(x, size) < 0x100_0000
  {
    BitsOf(x, k);
    LeadingBounds(x, k, size);
  }

  /** Three bytes survive both truncations. */
  lemma NoTruncation(c: nat)
    requires c < 0x100_0000
    ensures Lo64(c) == c && c % 0x1_0000_0000 == c
  {
  }

  lemma SmallCompact(a: seq<u64>, k: nat, size: nat)
    requires |a| == 4 && k == BitLen(Val(a)) && size == (k + 7) / 8 && size <= 3
    ensures WordShl(a[0], 8 * (3 - size)) % 0x1_0000_0000 == Leading(Val(a), size)
  {
    FewBits(Val(a), 24);
    ValWord(a);
    LeadingFits(Val(a), k, size);
    NoTruncation(Leading(Val(a), size));
  }

  lemma LargeCompact(a: seq<u64>, bn: seq<u64>, k: nat, size: nat)
    requires |a| == 4 && |bn| == 4 && k == BitLen(Val(a)) && size == (k + 7) / 8 && 3 < size <= 32
    requires Val(bn) == Val(a) / Pow2(8 * (size - 3))
    ensures bn[0] % 0x1_0000_0000 == Leading(Val(a), size)
  {
    ShrIsDiv(Val(a), 8 * (size - 3));
    LeadingFits(Val(a), k, size);
    NoTruncation(Leading(Val(a), size));
    ValWord(bn);
  }

  /** `from_compact_target_bits`. */
  method FromCompactTargetBits(bits: nat) returns (r: seq<u64>)
    requires bits < 0x1_0000_0000
    ensures |r| == 4 && Val(r) == Decode(bits)
  {
    var unshiftedExpt := bits / 0x100_0000;
    var mant, expt := bits % 0x100_0000, 0;
    if unshiftedExpt <= 3 {
      mant := Shr(mant, 8 * (3 - unshiftedExpt));
    } else {
      expt := 8 * (unshiftedExpt - 3);
    }
    if mant > 0x7f_ffff {
      r := Zeros(4);
      ValZeros(r);
    } else {
      var one: seq<u64> := [mant, 0, 0, 0];
      var wrapped;
      r, wrapped := OverflowingShl(one, expt);
      ValZeros(one[1..]);
      ShlIsMul(mant, expt % 256);
    }
  }

  /** The bridge's `calculate_target`, its cast to u32 included; `BigUint` is unbounded. */
  method CalculateTarget(bits: nat) returns (target: nat)
    requires bits < 0x1_0000_0000_0000_0000
    ensures target == BridgeDecode(bits)
  {
    var exponent := bits / 0x100_0000;
    var mantissa := bits % 0x100_0000;
    if exponent <= 3 {
      mantissa, exponent := Shr(mantissa, 8 * (3 - exponent)), 0;
    } else {
      exponent := 8 * (exponent - 3) % 0x1_0000_0000;
    }
    target := mantissa;
    target := Shl(target, exponent);
  }

  /** The theorem in terms of the code: encode, then decode with either decoder. */
  method RoundTrip(a: seq<u64>) returns (bits: nat, d: seq<u64>, target: nat)
    requires |a| == 4
    ensures |d| == 4 && Val(d) == target == Rounded(Val(a))
    ensures Val(d) <= Val(a) && (Val(a) > 0 ==> (Val(a) - Val(d)) * 0x8000 < Val(d))
    ensures bits == Encode(Val(d))
  {
    bits := CompactTargetBits(a);
    d := FromCompactTargetBits(bits);
    target := CalculateTarget(bits);
    ValBound(a);
    DecodeEncode(Val(a));
    RoundedClose(Val(a));
    EncodeRounded(Val(a));
  }
}
