/** Conversion of `construct_uint!` values to IEEE 754 binary64 bit patterns. */
module UintFloat {
  import opened Powers
  import opened Limbs
  import opened UintShift

  // ---- Reference: binary64 and rounding to nearest, ties to even ----------------------------------------

  /** Bit pattern of positive infinity, the first pattern after the largest finite number. */
  const INFINITY: nat := 0x7ff0_0000_0000_0000

  /** The exponent bias that turns the least positive binary64 number into 1. */
  const UNIT_EXPONENT: nat := 1074

  /**
   * The number a non-negative pattern stands for, in units of 2^-1074; the fraction field holds 52 bits. The formula
   * read at the infinity pattern gives 2^1024, the value that section 4.3.1 of IEEE 754-2019 uses to decide overflow.
   */
  ghost function Scaled(p: nat): (s: nat)
  {
    var e, f := p / 0x10_0000_0000_0000, p % 0x10_0000_0000_0000;
    if e == 0 then f else ScaleBy(0x10_0000_0000_0000 + f, e - 1)
  }

  ghost function ScaleBy(m: nat, k: nat): (s: nat)
  {
    m * Pow2(k)
  }

  ghost function Dist(a: nat, b: nat): (d: nat)
  {
    if a <= b then b - a else a - b
  }

  /** `p` is the pattern nearest to the integer `v`; among two nearest ones, the one with an even last bit. */
  ghost predicate NearestEven(p: nat, v: nat)
  {
    p <= INFINITY && forall y :: 0 <= y <= INFINITY ==> NoWorse(p, y, ScaleBy(v, UNIT_EXPONENT))
  }

  ghost predicate NoWorse(p: nat, y: nat, x: nat)
  {
    Dist(Scaled(p), x) < Dist(Scaled(y), x) || y == p || (Dist(Scaled(p), x) == Dist(Scaled(y), x) && p % 2 == 0)
  }

  // ---- The pattern order is the numeric order ------------------------------------------------------------

  lemma ScaledAt(e: nat, f: nat)
    requires e > 0 && f < 0x10_0000_0000_0000
    ensures Scaled(e * 0x10_0000_0000_0000 + f) == ScaleBy(0x10_0000_0000_0000 + f, e - 1)
  {
    assert (e * 0x10_0000_0000_0000 + f) / 0x10_0000_0000_0000 == e;
    assert (e * 0x10_0000_0000_0000 + f) % 0x10_0000_0000_0000 == f;
  }

  lemma ScaledStep(p: nat)
    ensures Scaled(p) < Scaled(p + 1)
  {
    var e, f := p / 0x10_0000_0000_0000, p % 0x10_0000_0000_0000;
    assert p == e * 0x10_0000_0000_0000 + f;
    if f + 1 < 0x10_0000_0000_0000 {
      assert (p + 1) / 0x10_0000_0000_0000 == e && (p + 1) % 0x10_0000_0000_0000 == f + 1;
      if e > 0 {
        ScaleGrows(0x10_0000_0000_0000 + f, Pow2(e - 1));
      }
    } else {
      assert (p + 1) / 0x10_0000_0000_0000 == e + 1 && (p + 1) % 0x10_0000_0000_0000 == 0;
      if e > 0 {
        ScaleCarries(Pow2(e - 1), Pow2(e));
      }
    }
  }

  lemma ScaleGrows(m: nat, u: nat)
    requires u > 0
    ensures (m + 1) * u == m * u + u
  {
  }

  lemma ScaleCarries(u: nat, u': nat)
    requires u > 0 && u' == 2 * u
    ensures (0x20_0000_0000_0000 - 1) * u < 0x10_0000_0000_0000 * u' == (0x20_0000_0000_0000) * u
  {
  }

  lemma {:induction false} ScaledMono(p: nat, q: nat)
    requires p <= q
    ensures Scaled(p) <= Scaled(q)
  {
    if p < q {
      ScaledMono(p, q - 1);
      ScaledStep(q - 1);
    }
  }

  /** Rounding between two neighbouring patterns is rounding to nearest overall. */
  lemma NeighboursDecide(p0: nat, v: nat, up: bool)
    requires p0 < INFINITY
    requires var x := ScaleBy(v, UNIT_EXPONENT);
             Scaled(p0) <= x <= Scaled(p0 + 1) &&
             (up ==> x - Scaled(p0) >= Scaled(p0 + 1) - x) && (!up ==> x - Scaled(p0) <= Scaled(p0 + 1) - x) &&
             (x - Scaled(p0) == Scaled(p0 + 1) - x ==> (up <==> p0 % 2 == 1))
    ensures NearestEven(if up then p0 + 1 else p0, v)
  {
    var x := ScaleBy(v, UNIT_EXPONENT);
    var p := if up then p0 + 1 else p0;
    forall y | 0 <= y <= INFINITY
      ensures NoWorse(p, y, x)
    {
      Farther(p0, y);
      ByDistance(p0, y, x, up, Scaled(p0), Scaled(p0 + 1), Scaled(y));
    }
  }

  lemma Farther(p0: nat, y: nat)
    ensures y < p0 ==> Scaled(y) < Scaled(p0)
    ensures y > p0 + 1 ==> Scaled(y) > Scaled(p0 + 1)
  {
    if y < p0 {
      ScaledMono(y, p0 - 1);
      ScaledStep(p0 - 1);
    } else if y > p0 + 1 {
      ScaledMono(p0 + 2, y);
      ScaledStep(p0 + 1);
    }
  }

  lemma ByDistance(p0: nat, y: nat, x: nat, up: bool, s0: nat, s1: nat, sy: nat)
    requires s0 <= x <= s1
    requires (up ==> x - s0 >= s1 - x) && (!up ==> x - s0 <= s1 - x)
    requires x - s0 == s1 - x ==> (up <==> p0 % 2 == 1)
    requires (y < p0 ==> sy < s0) && (y > p0 + 1 ==> sy > s1) && (y == p0 ==> sy == s0) && (y == p0 + 1 ==> sy == s1)
    ensures var p, s := if up then p0 + 1 else p0, if up then s1 else s0;
            Dist(s, x) < Dist(sy, x) || y == p || (Dist(s, x) == Dist(sy, x) && p % 2 == 0)
  {
  }

  // ---- The numbers behind the conversion ------------------------------------------------------------------

  /**
   * `v` of bit length k, left-aligned in 64n bits, reads as m * 2^(64n-53) + d with m the mantissa. In units of
   * 2^-1074 the spacing of binary64 at `v` is 2^(k+1021), and d compares with half of 2^(64n-53) as the distance
   * of `v` from m units compares with half the spacing.
   */
  lemma AlignedDigits(v: nat, m: nat, d: nat, x: nat, u: nat, c: nat, g: nat, h: nat)
    requires c > 0 && g > 0
    requires v * c == m * h + d && h * g == u * c && x == v * g && d < h
    ensures m * u <= x < (m + 1) * u
    ensures 2 * d < h <==> 2 * (x - m * u) < u
    ensures 2 * d > h <==> 2 * (x - m * u) > u
  {
    var e := x - m * u;
    assert e * c == d * g by {
      assert x * c == (v * c) * g;
      assert (m * h + d) * g == m * (h * g) + d * g;
      assert m * (u * c) == (m * u) * c;
      assert (x - m * u) * c == x * c - (m * u) * c;
    }
    ScaleOrder(e, 0, c);
    CompareScaled(e, c, d, g, u, h);
  }

  lemma CompareScaled(e: int, c: nat, d: nat, g: nat, u: nat, h: nat)
    requires c > 0 && g > 0 && e * c == d * g && u * c == h * g && d < h
    ensures e < u
    ensures 2 * d < h <==> 2 * e < u
    ensures 2 * d > h <==> 2 * e > u
  {
    ScaleOrder(d, h, g);
    ScaleOrder(2 * d, h, g);
    ScaleOrder(e, u, c);
    ScaleOrder(2 * e, u, c);
    assert (2 * d) * g == 2 * (d * g) && (2 * e) * c == 2 * (e * c);
  }

  lemma ScaleOrder(a: int, b: int, c: nat)
    requires c > 0
    ensures a < b <==> a * c < b * c
    ensures a > b <==> a * c > b * c
  {
    if a < b {
      ScaleLess(a, b, c);
    } else if b < a {
      ScaleLess(b, a, c);
    }
  }

  lemma ScaleLess(a: int, b: int, c: nat)
    requires a < b && c > 0
    ensures a * c < b * c
  {
    MulMono(1, b - a, c);
    assert b * c == a * c + (b - a) * c;
  }

  // ---- The bits that do not fit the mantissa ----------------------------------------------------------------

  /** `top << 53`. */
  function DroppedFrom(top: nat): (r: u64)
  {
    Lo64(0x20_0000_0000_0000 * top)
  }

  /** `top << 53` keeps the eleven dropped bits of the top word; its high bit and the rest are tested apart. */
  lemma DroppedBits(top: u64, m: nat, t: nat)
    requires top == 2048 * m + t && t < 2048
    ensures var dropped := DroppedFrom(top);
            (dropped / 0x8000_0000_0000_0000 != 0 <==> t >= 1024) &&
            (WordShl(dropped, 1) == 0 <==> t == 0 || t == 1024)
  {
    Split64(0x20_0000_0000_0000 * top, m, 0x20_0000_0000_0000 * t);
    var dropped := 0x20_0000_0000_0000 * t;
    assert Shl(dropped, 1) == 2 * Shl(dropped, 0);
    if t >= 1024 {
      Split64(2 * dropped, 1, 0x40_0000_0000_0000 * (t - 1024));
    } else {
      Split64(2 * dropped, 0, 0x40_0000_0000_0000 * t);
    }
  }

  /** OR-ing the lower words into `rest` only asks whether any bit of them is set. */
  method OrWords(rest0: u64, words: seq<u64>) returns (rest: u64)
    ensures rest == 0 <==> rest0 == 0 && Val(words) == 0
  {
    rest := rest0;
    var i := 0;
    while i < |words|
      invariant 0 <= i <= |words|
      invariant rest == 0 <==> rest0 == 0 && forall j :: 0 <= j < i ==> words[j] == 0
    {
      rest := WordOr(rest, words[i]);
      i := i + 1;
    }
    if Val(words) == 0 {
      ValZeroMeansZeros(words);
    } else if forall j :: 0 <= j < |words| ==> words[j] == 0 {
      ValZeros(words);
    }
  }

  /** How the dropped part d = t * b + low compares with half of 2048 * b. */
  lemma HalfTest(t: nat, low: nat, b: nat)
    requires t < 2048 && low < b
    ensures t * b + low < 2048 * b
    ensures 2 * (t * b + low) > 2048 * b <==> t >= 1024 && !((t == 0 || t == 1024) && low == 0)
    ensures 2 * (t * b + low) == 2048 * b <==> t >= 1024 && ((t == 0 || t == 1024) && low == 0)
  {
    LeadingDigit(low, b, t, 2048);
    if t < 1024 {
      LeadingDigit(low, b, t, 1024);
    } else {
      MulMono(1024, t, b);
      if t > 1024 {
        MulMono(1025, t, b);
      }
    }
  }

  // ---- Assembling the pattern ------------------------------------------------------------------------------

  lemma PatternNeighbours(k: nat, m: nat, p0: nat)
    requires 0 < k <= 1024 && 0x10_0000_0000_0000 <= m < 0x20_0000_0000_0000
    requires p0 == (k + 1021) * 0x10_0000_0000_0000 + m
    ensures p0 < INFINITY && p0 % 2 == m % 2
    ensures Scaled(p0) == m * Pow2(k + 1021) && Scaled(p0 + 1) == (m + 1) * Pow2(k + 1021)
  {
    Parity(k + 1021, m);
    ScaledAt(k + 1022, m - 0x10_0000_0000_0000);
    if m + 1 < 0x20_0000_0000_0000 {
      ScaledAt(k + 1022, m + 1 - 0x10_0000_0000_0000);
    } else {
      ScaledAt(k + 1023, 0);
      ScaleCarries(Pow2(k + 1021), Pow2(k + 1022));
    }
  }

  lemma Parity(e: nat, m: nat)
    ensures (e * 0x10_0000_0000_0000 + m) % 2 == m % 2
  {
    assert e * 0x10_0000_0000_0000 + m == 2 * (e * 0x8_0000_0000_0000) + m;
  }

  lemma RoundedPattern(v: nat, k: nat, n: nat, m: nat, d: nat, p0: nat, up: bool)
    requires n > 0 && 0 < k <= 1024 && k <= 64 * n && 0x10_0000_0000_0000 <= m < 0x20_0000_0000_0000
    requires p0 == (k + 1021) * 0x10_0000_0000_0000 + m
    requires v * Pow2(64 * n - k) == m * Pow2(64 * n - 53) + d && d < Pow2(64 * n - 53)
    requires up <==> 2 * d > Pow2(64 * n - 53) || (2 * d == Pow2(64 * n - 53) && m % 2 == 1)
    ensures NearestEven(if up then p0 + 1 else p0, v)
  {
    var c, h, u, g := Pow2(64 * n - k), Pow2(64 * n - 53), Pow2(k + 1021), Pow2(UNIT_EXPONENT);
    Pow2Add(64 * n - 53, UNIT_EXPONENT);
    Pow2Add(k + 1021, 64 * n - k);
    assert 64 * n - 53 + UNIT_EXPONENT == k + 1021 + (64 * n - k);
    AlignedDigits(v, m, d, ScaleBy(v, UNIT_EXPONENT), u, c, g, h);
    PatternNeighbours(k, m, p0);
    ScaleGrows(m, u);
    NeighboursDecide(p0, v, up);
  }

  lemma ZeroPattern()
    ensures NearestEven(0, 0)
  {
    assert Scaled(0) == 0;
    MulZero(Pow2(UNIT_EXPONENT), 0);
    forall y | 0 <= y <= INFINITY
      ensures NoWorse(0, y, ScaleBy(0, UNIT_EXPONENT))
    {
      ScaledMono(0, y);
    }
  }

  /** The top word of a left-aligned value has its high bit set. */
  lemma TopWordFull(left: seq<u64>, v: nat, k: nat)
    requires |left| > 0 && v > 0 && k == BitLen(v) && k <= 64 * |left|
    requires Val(left) == v * Pow2(64 * |left| - k)
    ensures left[|left| - 1] >= 0x8000_0000_0000_0000
  {
    var w := 63;
    AlignedTop(left, v, k, w);
    Pow2Of63();
  }

  lemma AlignedTop(left: seq<u64>, v: nat, k: nat, w: nat)
    requires |left| > 0 && v > 0 && k == BitLen(v) && k <= 64 * |left| && w == 63
    requires Val(left) == v * Pow2(64 * |left| - k)
    ensures left[|left| - 1] >= Pow2(w)
  {
    AlignedAtLeast(v, k, |left|, w);
    TopWordAtLeast(left, Pow2(w));
  }

  lemma TopWordAtLeast(left: seq<u64>, y: nat)
    requires |left| > 0 && B(|left| - 1) * y <= Val(left)
    ensures y <= left[|left| - 1]
  {
    var n := |left|;
    ValTake(left, n - 1);
    assert left[..n] == left;
    ValBound(left[..n - 1]);
    TopDigit(Val(left[..n - 1]), B(n - 1), left[n - 1], y);
  }

  lemma AlignedAtLeast(v: nat, k: nat, n: nat, w: nat)
    requires n > 0 && v > 0 && k == BitLen(v) && k <= 64 * n && w == 63
    ensures B(n - 1) * Pow2(w) <= v * Pow2(64 * n - k)
  {
    BitLenBounds(v);
    MulMono(Pow2(k - 1), v, Pow2(64 * n - k));
    Pow2Add(k - 1, 64 * n - k);
    BShift(n - 1, w);
  }

  lemma TopDigit(lo: nat, b: nat, x: nat, y: nat)
    requires lo < b && b * y <= lo + b * x
    ensures y <= x
  {
    if x < y {
      LeadingDigit(lo, b, x, y);
      assert false;
    }
  }

  lemma Pow2Of63()
    ensures Pow2(63) == 0x8000_0000_0000_0000 && Pow2(11) == 2048
  {
    Pow2Constants();
    assert Pow2(64) == 2 * Pow2(63);
    assert Pow2(11) == 8 * Pow2(8);
  }

  /** The left-aligned value, cut at the mantissa. */
  lemma CutAtMantissa(left: seq<u64>, m: nat, t: nat)
    requires |left| > 0 && left[|left| - 1] == 2048 * m + t
    ensures var n := |left|;
            Pow2(64 * n - 53) == 2048 * B(n - 1) &&
            Val(left) == m * Pow2(64 * n - 53) + (t * B(n - 1) + Val(left[..n - 1]))
  {
    var n := |left|;
    ValTake(left, n - 1);
    assert left[..n] == left;
    var w := 11;
    MantissaUnit(n, w);
    CutAlgebra(B(n - 1), m, t, left[n - 1], Pow2(64 * n - 53));
  }

  lemma MantissaUnit(n: nat, w: nat)
    requires n > 0 && w == 11
    ensures Pow2(64 * n - 53) == 2048 * B(n - 1)
  {
    BShift(n - 1, w);
    Pow2Of63();
  }

  lemma CutAlgebra(b: nat, m: nat, t: nat, x: nat, h: nat)
    requires x == 2048 * m + t && h == 2048 * b
    ensures b * x == m * h + t * b
  {
  }

  lemma ShlAligned(a: seq<u64>, left: seq<u64>, k: nat)
    requires |a| == |left| && |a| > 0 && k == BitLen(Val(a)) && k <= 64 * |a|
    requires Val(left) == Val(a) * Pow2((64 * |a| - k) % (64 * |a|)) % B(|a|)
    ensures k == 0 ==> Val(left) == 0
    ensures k > 0 ==> Val(left) == Val(a) * Pow2(64 * |a| - k)
  {
    var n, v := |a|, Val(a);
    BitLenBounds(v);
    var r := (64 * n - k) % (64 * n);
    if k > 0 {
      DivModUnique(64 * n - k, 64 * n, 0, 64 * n - k);
      Pow2Add(k, 64 * n - k);
      BIsPow2(n);
      FitsWidth(v, Pow2(k), Pow2(64 * n - k), B(n));
    } else {
      FitsWidth(v, 1, Pow2(r), Pow2(r));
      DivModUnique(0, B(n), 0, 0);
    }
  }

  lemma FitsWidth(v: nat, p: nat, q: nat, b: nat)
    requires v < p && p * q == b && q > 0
    ensures b > 0 && v * q % b == v * q
    ensures v == 0 ==> v * q == 0
  {
    LeadingDigit(0, q, v, p);
    DivModUnique(v * q, b, 0, v * q);
  }

  /** The mantissa of a left-aligned value, and whether the bits below it round it up. */
  method RoundMantissa(left: seq<u64>) returns (mantissa: nat, up: bool, ghost d: nat)
    requires |left| > 0
    ensures mantissa == left[|left| - 1] / 2048
    ensures var h := Pow2(64 * |left| - 53);
            Val(left) == mantissa * h + d && d < h && (up <==> 2 * d > h || (2 * d == h && mantissa % 2 == 1))
  {
    var n := |left|;
    var top := left[n - 1];
    mantissa := top / 2048;
    ghost var t := top % 2048;
    var dropped := DroppedFrom(top);
    var highestDroppedBit := dropped / 0x8000_0000_0000_0000 != 0;
    DroppedBits(top, mantissa, t);
    var restDroppedBits := OrWords(WordShl(dropped, 1), left[..n - 1]);
    var higherThanHalf := highestDroppedBit && restDroppedBits != 0;
    var exactlyHalfButMantissaOdd := highestDroppedBit && restDroppedBits == 0 && mantissa % 2 == 1;
    up := higherThanHalf || exactlyHalfButMantissaOdd;
    d := LowPart(t, B(n - 1), Val(left[..n - 1]));
    CutAtMantissa(left, mantissa, t);
    ValBound(left[..n - 1]);
    HalfTest(t, Val(left[..n - 1]), B(n - 1));
  }

  ghost function LowPart(t: nat, b: nat, low: nat): (d: nat)
  {
    t * b + low
  }

  /** `as_f64`, for every value of at most 1024 bits. */
  method AsF64(a: seq<u64>) returns (bits: u64)
    requires |a| > 0 && BitLen(Val(a)) <= 1024
    ensures NearestEven(bits, Val(a))
  {
    var n := |a|;
    var k := Bits(a);
    var leadingZeroes := 64 * n - k;
    var left, _ := OverflowingShl(a, leadingZeroes);
    ShlAligned(a, left, k);
    var mantissa, up;
    ghost var d;
    mantissa, up, d := RoundMantissa(left);
    var isZero := forall i :: 0 <= i < n ==> a[i] == 0;
    if isZero {
      ValZeros(a);
    } else {
      NonZero(a);
    }
    var exponent := if isZero then 0 else 64 * n + 1021 - leadingZeroes;
    PatternCorrect(Val(a), left, k, mantissa, up, d, exponent);
    bits := exponent * 0x10_0000_0000_0000 + (mantissa + if up then 1 else 0);
  }

  lemma PatternCorrect(v: nat, left: seq<u64>, k: nat, m: nat, up: bool, d: nat, exponent: nat)
    requires |left| > 0 && k == BitLen(v) <= 1024 && k <= 64 * |left|
    requires Val(left) == if k == 0 then 0 else v * Pow2(64 * |left| - k)
    requires m == left[|left| - 1] / 2048
    requires var h := Pow2(64 * |left| - 53);
             Val(left) == m * h + d && d < h && (up <==> 2 * d > h || (2 * d == h && m % 2 == 1))
    requires exponent == if v == 0 then 0 else k + 1021
    ensures NearestEven(exponent * 0x10_0000_0000_0000 + (m + if up then 1 else 0), v)
  {
    var n := |left|;
    if v == 0 {
      ZeroRounds(left, m, d, Pow2(64 * n - 53));
      ZeroPattern();
    } else {
      BitLenBounds(v);
      TopWordFull(left, v, k);
      RoundedPattern(v, k, n, m, d, exponent * 0x10_0000_0000_0000 + m, up);
    }
  }

  lemma NonZero(a: seq<u64>)
    requires exists i :: 0 <= i < |a| && a[i] != 0
    ensures Val(a) > 0
  {
    if Val(a) == 0 {
      ValZeroMeansZeros(a);
      assert false;
    }
  }

  lemma ZeroRounds(left: seq<u64>, m: nat, d: nat, h: nat)
    requires Val(left) == 0 && Val(left) == m * h + d && h > 0
    ensures m == 0 && d == 0
  {
    if m > 0 {
      MulMono(1, m, h);
      assert false;
    }
  }
}
