/** `bits`, ordering and the two shifts of `construct_uint!`. */
module UintShift {
  import opened Powers
  import opened Limbs

  // ---- 64-bit word operations --------------------------------------------------------------------

  /** `x << k` before truncation, one doubling at a time. */
  function Shl(x: nat, k: nat): (r: nat)
    decreases k
  {
    if k == 0 then x else 2 * Shl(x, k - 1)
  }

  /** `x << k` on a u64. */
  function WordShl(x: u64, k: nat): (r: u64)
  {
    Lo64(Shl(x, k))
  }

  /** `x | y` on u64 operands. */
  function WordOr(x: u64, y: u64): (r: u64)
  {
    Pow2Constants();
    OrBound(x, y, 64);
    Or(x, y)
  }

  lemma {:induction false} ShlIsMul(x: nat, k: nat)
    ensures Shl(x, k) == x * Pow2(k)
    decreases k
  {
    if k != 0 {
      ShlIsMul(x, k - 1);
      DoubleProduct(Pow2(k - 1), x);
    }
  }

  /** How a left shift divides a limb between its own word and the next one. */
  lemma ShiftSplit(x: u64, k: nat)
    requires k <= 64
    ensures x * Pow2(k) == Up(Shr(x, 64 - k)) + WordShl(x, k)
    ensures WordShl(x, k) == Low(x, 64 - k) * Pow2(k)
    ensures Shr(x, 64 - k) < Pow2(k)
  {
    Pow2Constants();
    Pow2Add(64 - k, k);
    ShlIsMul(x, k);
    ShrLow(x, 64 - k);
    ScaleSplit(x, Pow2(k), Pow2(64 - k), Shr(x, 64 - k), Low(x, 64 - k), Shl(x, k));
  }

  lemma ScaleSplit(x: nat, p: nat, d: nat, q: nat, l: nat, v: nat)
    requires x == q * d + l && l < d && p > 0 && d * p == Up(1) && v == x * p && x < Up(1)
    ensures v == Up(q) + Lo64(v) && Lo64(v) == l * p && q < p
  {
    assert v == q * (d * p) + l * p;
    LeadingDigit(0, p, l, d);
    Split64(v, q, l * p);
    if p <= q {
      MulMono(p, q, d);
      assert false;
    }
  }

  // ---- Bit length and ordering -------------------------------------------------------------------

  /** `u64::leading_zeros`. */
  function LeadingZeros(x: u64): (z: nat)
    ensures z == 64 - BitLen(x)
  {
    Pow2Constants();
    BitLenAtMost(x, 64);
    64 - BitLen(x)
  }

  lemma TopLimbBits(s: seq<u64>, i: nat)
    requires i < |s| && s[i] != 0
    requires forall j :: i < j < |s| ==> s[j] == 0
    ensures BitLen(Val(s)) == 64 * i + BitLen(s[i])
  {
    ValPadHigh(s, i + 1);
    ValTake(s, i);
    ValBound(s[..i]);
    var m := BitLen(s[i]);
    BitLenBounds(s[i]);
    BShift(i, m);
    BShift(i, m - 1);
    BetweenPowers(B(i), Val(s[..i]), s[i], Val(s), Pow2(m - 1), Pow2(m), Pow2(64 * i + m - 1), Pow2(64 * i + m));
    BitLenUnique(Val(s), 64 * i + m);
  }

  lemma BetweenPowers(b: nat, lo: nat, x: nat, v: nat, p: nat, p': nat, q: nat, q': nat)
    requires lo < b && v == lo + b * x && p <= x < p' && q == b * p && q' == b * p'
    ensures q <= v < q'
  {
    MulMono(p, x, b);
    LeadingDigit(lo, b, x, p');
  }

  /** `bits`: scans from the most significant limb for the first non-zero one. */
  method Bits(s: seq<u64>) returns (k: nat)
    ensures k == BitLen(Val(s))
    ensures k <= 64 * |s|
  {
    var i := |s|;
    while i > 0
      invariant 0 <= i <= |s|
      invariant forall j :: i <= j < |s| ==> s[j] == 0
    {
      i := i - 1;
      if s[i] != 0 {
        TopLimbBits(s, i);
        return 64 * (i + 1) - LeadingZeros(s[i]);
      }
    }
    ValZeros(s);
    return 0;
  }

  datatype Ordering = Less | Equal | Greater

  lemma TopLimbOrder(a: seq<u64>, b: seq<u64>, i: nat)
    requires |a| == |b| && i < |a| && a[i] < b[i]
    requires a[i + 1..] == b[i + 1..]
    ensures Val(a) < Val(b)
  {
    ValSplit(a, i + 1);
    ValSplit(b, i + 1);
    ValTake(a, i);
    ValTake(b, i);
    ValBound(a[..i]);
    LimbOrder(B(i), B(i + 1), Val(a[..i]), Val(b[..i]), a[i], b[i], Val(a[i + 1..]));
  }

  lemma LimbOrder(b: nat, b': nat, lo: nat, lo': nat, x: nat, y: nat, hi: nat)
    requires lo < b && x < y
    ensures lo + b * x + b' * hi < lo' + b * y + b' * hi
  {
    LeadingDigit(lo, b, x, y);
  }

  /** `Ord::cmp`: limb comparison from the most significant end. */
  method Compare(a: seq<u64>, b: seq<u64>) returns (o: Ordering)
    requires |a| == |b|
    ensures o.Less? <==> Val(a) < Val(b)
    ensures o.Equal? <==> Val(a) == Val(b)
    ensures o.Greater? <==> Val(a) > Val(b)
  {
    var i := |a|;
    while i > 0
      invariant 0 <= i <= |a|
      invariant a[i..] == b[i..]
    {
      i := i - 1;
      if a[i] < b[i] {
        TopLimbOrder(a, b, i);
        return Less;
      }
      if a[i] > b[i] {
        TopLimbOrder(b, a, i);
        return Greater;
      }
      assert a[i..] == [a[i]] + a[i + 1..];
      assert b[i..] == [b[i]] + b[i + 1..];
    }
    assert a[0..] == a && b[0..] == b;
    return Equal;
  }

  /** `s %= BITS`, split into whole words and a bit count. */
  method SplitShift(s: nat, n: nat) returns (w: nat, k: nat)
    requires n > 0
    ensures w < n && k < 64 && 64 * w + k == s % (64 * n)
  {
    var s' := s % (64 * n);
    w, k := s' / 64, s' % 64;
  }

  // ---- Left shift ----------------------------------------------------------------------------------

  /** Limb i of a left shift by w words and k bits. */
  ghost function ShlLimb(a: seq<u64>, w: nat, k: nat, i: nat): (x: nat)
    requires i < |a| && k < 64
  {
    if i < w then 0
    else WordShl(a[i - w], k) + (if i == w then 0 else Shr(a[i - w - 1], 64 - k))
  }

  ghost predicate Splits(x: nat, p: nat, q: nat, r: nat)
  {
    x * p == Up(q) + r
  }

  /** Scaling limb by limb by `p`: `t` collects each low part plus the high part carried from below. */
  lemma {:induction false} ScaledSuffix(a: seq<u64>, p: nat, lo: seq<nat>, hi: seq<nat>, t: seq<u64>, j: nat)
    requires j <= |a| == |t| == |lo| == |hi| && |a| > 0
    requires forall i {:trigger Splits(a[i], p, hi[i], lo[i])} :: 0 <= i < |a| ==> Splits(a[i], p, hi[i], lo[i])
    requires forall i :: 0 <= i < |t| ==> t[i] == lo[i] + (if i == 0 then 0 else hi[i - 1])
    ensures Val(t[j..]) + B(|t| - j) * hi[|t| - 1] == Val(a[j..]) * p + (if j == 0 then 0 else hi[j - 1])
    decreases |a| - j
  {
    if j < |a| {
      ScaledSuffix(a, p, lo, hi, t, j + 1);
      assert Splits(a[j], p, hi[j], lo[j]);
      ScaledSuffixStep(a, p, lo, hi, t, j);
    }
  }

  lemma ScaledSuffixStep(a: seq<u64>, p: nat, lo: seq<nat>, hi: seq<nat>, t: seq<u64>, j: nat)
    requires j < |a| == |t| == |lo| == |hi|
    requires Splits(a[j], p, hi[j], lo[j])
    requires t[j] == lo[j] + (if j == 0 then 0 else hi[j - 1])
    requires Val(t[j + 1..]) + B(|t| - j - 1) * hi[|t| - 1] == Val(a[j + 1..]) * p + hi[j]
    ensures Val(t[j..]) + B(|t| - j) * hi[|t| - 1] == Val(a[j..]) * p + (if j == 0 then 0 else hi[j - 1])
  {
    ValDrop(a, j);
    ValDrop(t, j);
    ScaleAlgebra(Val(t[j + 1..]), Val(t[j..]), B(|t| - j - 1), B(|t| - j), hi[|t| - 1], p, Val(a[j + 1..]), Val(a[j..]),
                 hi[j], a[j], t[j], lo[j], if j == 0 then 0 else hi[j - 1]);
  }

  lemma ScaleAlgebra(t: nat, t': nat, b: nat, b': nat, top: nat, p: nat, v: nat, v': nat,
                     q: nat, x: nat, y: nat, r: nat, h: nat)
    requires x * p == Up(q) + r && y == r + h && b' == Up(b)
    requires t + b * top == v * p + q
    requires t' == y + Up(t) && v' == x + Up(v)
    ensures t' + b' * top == v' * p + h
  {
  }

  lemma ShlAlgebra(bw: nat, bm: nat, bn: nat, p: nat, lo: nat, hi: nat, v: nat, r: nat, vr: nat, h: nat, d: nat)
    requires r + bm * h == lo * p && v == lo + bm * hi && vr == bw * r && vr < bn == bw * bm && d == bw * p
    ensures v * d % bn == vr
  {
    assert v * d == bw * (lo * p) + (hi * p) * (bw * bm);
    assert bw * (r + bm * h) == bw * r + h * (bw * bm);
    DivModUnique(v * d, bn, h + hi * p, vr);
  }

  ghost function LowParts(a: seq<u64>, k: nat): (lo: seq<nat>)
    ensures |lo| == |a| && forall i :: 0 <= i < |a| ==> lo[i] == WordShl(a[i], k)
  {
    seq(|a|, i requires 0 <= i < |a| => WordShl(a[i], k))
  }

  ghost function HighParts(a: seq<u64>, k: nat): (hi: seq<nat>)
    requires k <= 64
    ensures |hi| == |a| && forall i :: 0 <= i < |a| ==> hi[i] == Shr(a[i], 64 - k)
  {
    seq(|a|, i requires 0 <= i < |a| => Shr(a[i], 64 - k))
  }

  ghost function LowBits(a: seq<u64>, k: nat): (e: seq<nat>)
    ensures |e| == |a| && forall i :: 0 <= i < |a| ==> e[i] == Low(a[i], k)
  {
    seq(|a|, i requires 0 <= i < |a| => Low(a[i], k))
  }

  lemma PartsSplit(a: seq<u64>, k: nat)
    requires k < 64
    ensures forall i {:trigger Splits(a[i], Pow2(k), HighParts(a, k)[i], LowParts(a, k)[i])} ::
              0 <= i < |a| ==> Splits(a[i], Pow2(k), HighParts(a, k)[i], LowParts(a, k)[i])
  {
    forall i | 0 <= i < |a|
      ensures Splits(a[i], Pow2(k), HighParts(a, k)[i], LowParts(a, k)[i])
    {
      ShiftSplit(a[i], k);
    }
  }

  /** The limbs of a left shift spell the shifted value, cut off at the width. */
  lemma ShlValue(a: seq<u64>, r: seq<u64>, w: nat, k: nat)
    requires |r| == |a| && k < 64 && w < |a|
    requires forall i :: 0 <= i < |a| ==> r[i] == ShlLimb(a, w, k, i)
    ensures Val(r) == Val(a) * Pow2(64 * w + k) % B(|a|)
  {
    var m, p := |a| - w, Pow2(k);
    var u, t := a[..m], r[w..];
    var lo, hi := LowParts(u, k), HighParts(u, k);
    PartsSplit(u, k);
    forall i | 0 <= i < m
      ensures t[i] == lo[i] + (if i == 0 then 0 else hi[i - 1])
    {
      assert r[w + i] == ShlLimb(a, w, k, w + i);
    }
    ScaledSuffix(u, p, lo, hi, t, 0);
    assert t[0..] == t && u[0..] == u;
    BShift(w, k);
    ShlFinish(a, r, w, p, hi[m - 1], Pow2(64 * w + k));
  }

  lemma ShlFinish(a: seq<u64>, r: seq<u64>, w: nat, p: nat, h: nat, d: nat)
    requires |r| == |a| && w < |a| && d == B(w) * p
    requires forall i :: 0 <= i < w ==> r[i] == 0
    requires Val(r[w..]) + B(|a| - w) * h == Val(a[..|a| - w]) * p
    ensures Val(r) == Val(a) * d % B(|a|)
  {
    var m := |a| - w;
    ValPadLow(r, w);
    ValSplit(a, m);
    ValBound(r);
    BAdd(w, m);
    ShlAlgebra(B(w), B(m), B(|a|), p, Val(a[..m]), Val(a[m..]), Val(a), Val(r[w..]), Val(r), h, d);
  }

  /** `overflowing_shl`: the shift count is reduced modulo the width, the flag says it had to be. */
  method OverflowingShl(a: seq<u64>, s: nat) returns (r: seq<u64>, overflows: bool)
    requires |a| > 0
    ensures |r| == |a|
    ensures overflows <==> s >= 64 * |a|
    ensures Val(r) == Val(a) * Pow2(s % (64 * |a|)) % B(|a|)
  {
    var n := |a|;
    overflows := s >= 64 * n;
    var w, k := SplitShift(s, n);
    r := Zeros(n);
    var i := w;
    while i < n
      invariant w <= i <= n && |r| == n
      invariant forall j :: 0 <= j < n ==> r[j] == if w <= j < i then WordShl(a[j - w], k) else 0
    {
      r := r[i := WordShl(a[i - w], k)];
      i := i + 1;
    }
    if k > 0 {
      i := w + 1;
      while i < n
        invariant w + 1 <= i <= n && |r| == n
        invariant forall j :: 0 <= j < i ==> r[j] == ShlLimb(a, w, k, j)
        invariant forall j :: i <= j < n ==> r[j] == WordShl(a[j - w], k)
      {
        r := r[i := WordOr(r[i], Shr(a[i - 1 - w], 64 - k))];
        ShlLimbWord(a[i - w], a[i - 1 - w], k);
        i := i + 1;
      }
    } else {
      WordsAligned(a);
    }
    ShlValue(a, r, w, k);
  }

  lemma ShlLimbWord(x: u64, y: u64, k: nat)
    requires k < 64
    ensures WordOr(WordShl(x, k), Shr(y, 64 - k)) == WordShl(x, k) + Shr(y, 64 - k)
  {
    ShiftSplit(x, k);
    ShiftSplit(y, k);
    OrDisjoint(Low(x, 64 - k), Shr(y, 64 - k), k);
  }

  lemma WordsAligned(a: seq<u64>)
    ensures forall i :: 0 <= i < |a| ==> Shr(a[i], 64) == 0 && WordShl(a[i], 0) == a[i]
  {
    forall i | 0 <= i < |a|
      ensures Shr(a[i], 64) == 0
    {
      Pow2Constants();
      ShrBound(a[i], 0, 64);
    }
  }

  // ---- Right shift ---------------------------------------------------------------------------------

  /** Limb j of a right shift by w words and k bits. */
  ghost function ShrLimb(a: seq<u64>, w: nat, k: nat, j: nat): (x: nat)
    requires k < 64
  {
    if w + j >= |a| then 0
    else Shr(a[w + j], k) + (if w + j + 1 >= |a| then 0 else WordShl(a[w + j + 1], 64 - k))
  }

  ghost predicate Divides(x: nat, p: nat, q: nat, e: nat, up: nat)
  {
    x == q * p + e && up * p == Up(e)
  }

  /** Dividing limb by limb by `p`: `t` collects each quotient plus the remainder handed down from above. */
  lemma {:induction false} DividedSuffix(a: seq<u64>, p: nat, q: seq<nat>, e: seq<nat>, up: seq<nat>, t: seq<u64>,
                                         j: nat)
    requires j < |a| == |t| == |q| == |e| == |up|
    requires forall i {:trigger Divides(a[i], p, q[i], e[i], up[i])} ::
               0 <= i < |a| ==> Divides(a[i], p, q[i], e[i], up[i])
    requires forall i :: 0 <= i < |t| ==> t[i] == q[i] + (if i + 1 == |t| then 0 else up[i + 1])
    ensures Val(a[j..]) == Val(t[j..]) * p + e[j]
    decreases |a| - j
  {
    ValDrop(a, j);
    ValDrop(t, j);
    if j + 1 < |a| {
      DividedSuffix(a, p, q, e, up, t, j + 1);
      assert Divides(a[j], p, q[j], e[j], up[j]);
      assert Divides(a[j + 1], p, q[j + 1], e[j + 1], up[j + 1]);
      DivideAlgebra(p, q[j], up[j + 1], t[j], Val(t[j + 1..]), Val(t[j..]), e[j], e[j + 1], a[j], Val(a[j + 1..]));
    } else {
      assert Divides(a[j], p, q[j], e[j], up[j]);
      assert a[j + 1..] == [] && t[j + 1..] == [];
    }
  }

  lemma DivideAlgebra(p: nat, q: nat, u: nat, y: nat, t: nat, t': nat, e: nat, e': nat, x: nat, v: nat)
    requires x == q * p + e && u * p == Up(e') && y == q + u && v == t * p + e' && t' == y + Up(t)
    ensures x + Up(v) == t' * p + e
  {
  }

  lemma ShrAlgebra(b: nat, p: nat, lo: nat, hi: nat, v: nat, r: nat, e: nat, d: nat)
    requires lo < b && e < p && hi == r * p + e && v == lo + b * hi && d > 0 && d == b * p
    ensures v / d == r
  {
    LeadingDigit(lo, b, e, p);
    assert v == r * d + (lo + b * e);
    DivModUnique(v, d, r, lo + b * e);
  }

  lemma PartsDivide(a: seq<u64>, k: nat)
    requires k < 64
    ensures var q, e, up := HighParts(a, 64 - k), LowBits(a, k), LowParts(a, 64 - k);
            forall i {:trigger Divides(a[i], Pow2(k), q[i], e[i], up[i])} ::
              0 <= i < |a| ==> Divides(a[i], Pow2(k), q[i], e[i], up[i])
  {
    var q, e, up := HighParts(a, 64 - k), LowBits(a, k), LowParts(a, 64 - k);
    forall i | 0 <= i < |a|
      ensures Divides(a[i], Pow2(k), q[i], e[i], up[i])
    {
      ShrLow(a[i], k);
      UpScaled(a[i], k);
    }
  }

  /** The limbs of a right shift spell the quotient. */
  lemma ShrValue(a: seq<u64>, r: seq<u64>, w: nat, k: nat)
    requires |r| == |a| && k < 64 && w < |a|
    requires forall i :: 0 <= i < |a| ==> r[i] == ShrLimb(a, w, k, i)
    ensures Val(r) == Val(a) / Pow2(64 * w + k)
  {
    var m, p := |a| - w, Pow2(k);
    var u, t := a[w..], r[..m];
    var q, e, up := HighParts(u, 64 - k), LowBits(u, k), LowParts(u, 64 - k);
    PartsDivide(u, k);
    forall i | 0 <= i < m
      ensures t[i] == q[i] + (if i + 1 == m then 0 else up[i + 1])
    {
      assert r[i] == ShrLimb(a, w, k, i);
    }
    DividedSuffix(u, p, q, e, up, t, 0);
    assert u[0..] == u && t[0..] == t;
    BShift(w, k);
    ShrFinish(a, r, w, p, e[0], Pow2(64 * w + k));
  }

  lemma UpScaled(x: u64, k: nat)
    requires k < 64
    ensures WordShl(x, 64 - k) * Pow2(k) == Up(Low(x, k))
  {
    ShiftSplit(x, 64 - k);
    Pow2Constants();
    Pow2Add(64 - k, k);
    ScaleBack(Low(x, k), Pow2(64 - k), Pow2(k), WordShl(x, 64 - k));
  }

  lemma ScaleBack(l: nat, d: nat, p: nat, w: nat)
    requires w == l * d && d * p == Up(1)
    ensures w * p == Up(l)
  {
    assert w * p == l * (d * p);
  }

  lemma ShrFinish(a: seq<u64>, r: seq<u64>, w: nat, p: nat, e: nat, d: nat)
    requires |r| == |a| && w < |a| && e < p && d > 0 && d == B(w) * p
    requires forall i :: |a| - w <= i < |a| ==> r[i] == 0
    requires Val(a[w..]) == Val(r[..|a| - w]) * p + e
    ensures Val(r) == Val(a) / d
  {
    ValPadHigh(r, |a| - w);
    ValSplit(a, w);
    ValBound(a[..w]);
    ShrAlgebra(B(w), p, Val(a[..w]), Val(a[w..]), Val(a), Val(r[..|a| - w]), e, d);
  }

  /** `overflowing_shr`: the shift count is reduced modulo the width, the flag says it had to be. */
  method OverflowingShr(a: seq<u64>, s: nat) returns (r: seq<u64>, overflows: bool)
    requires |a| > 0
    ensures |r| == |a|
    ensures overflows <==> s >= 64 * |a|
    ensures Val(r) == Val(a) / Pow2(s % (64 * |a|))
  {
    var n := |a|;
    overflows := s >= 64 * n;
    var w, k := SplitShift(s, n);
    r := Zeros(n);
    var i := w;
    while i < n
      invariant w <= i <= n && |r| == n
      invariant forall j :: 0 <= j < n ==> r[j] == if j < i - w then Shr(a[w + j], k) else 0
    {
      r := r[i - w := Shr(a[i], k)];
      i := i + 1;
    }
    if k > 0 {
      i := w + 1;
      while i < n
        invariant w + 1 <= i <= n && |r| == n
        invariant forall j :: 0 <= j < i - w - 1 ==> r[j] == ShrLimb(a, w, k, j)
        invariant forall j :: i - w - 1 <= j < n ==> r[j] == if w + j < n then Shr(a[w + j], k) else 0
      {
        r := r[i - w - 1 := WordOr(r[i - w - 1], WordShl(a[i], 64 - k))];
        ShrLimbWord(a[i - 1], a[i], k);
        i := i + 1;
      }
    } else {
      WordShlAll(a);
    }
    ShrValue(a, r, w, k);
  }

  lemma ShrLimbWord(x: u64, y: u64, k: nat)
    requires 0 < k < 64
    ensures WordOr(Shr(x, k), WordShl(y, 64 - k)) == Shr(x, k) + WordShl(y, 64 - k)
  {
    ShiftSplit(x, 64 - k);
    ShiftSplit(y, 64 - k);
    OrDisjoint(Low(y, k), Shr(x, k), 64 - k);
  }

  lemma WordShlAll(a: seq<u64>)
    ensures forall i :: 0 <= i < |a| ==> WordShl(a[i], 64) == 0
  {
    forall i | 0 <= i < |a|
      ensures WordShl(a[i], 64) == 0
    {
      ShiftSplit(a[i], 64);
      MulZero(Pow2(64), Low(a[i], 0));
    }
  }
}
