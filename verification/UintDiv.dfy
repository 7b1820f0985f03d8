/** Division of `construct_uint!`: by one word, and bitwise long division by another wide integer. */
module UintDiv {
  import opened Powers
  import opened Limbs
  import opened UintShift
  import opened UintArith

  // ---- Division by a word --------------------------------------------------------------------------

  /** One limb: the u128 `rem << 64 | x` divided by the word, whose quotient fits a word again. */
  method DivWord(rem: u64, x: u64, d: u64) returns (q: u64, rem': u64)
    requires rem < d
    ensures Up(rem) + x == q * d + rem' && rem' < d
  {
    var n := Join(rem, x);
    WordQuotient(rem, x, d, n);
    q, rem' := n / d, n % d;
  }

  /** `(hi as u128) << 64 | lo`. */
  function Join(hi: u64, lo: u64): (n: nat)
    ensures n == Up(hi) + lo
  {
    Pow2Constants();
    OrDisjoint(hi, lo, 64);
    Or(hi * 0x1_0000_0000_0000_0000, lo)
  }

  lemma WordQuotient(rem: nat, x: nat, d: nat, n: nat)
    requires rem < d && x < Up(1) && n == Up(rem) + x
    ensures n / d < Up(1) && n == n / d * d + n % d
  {
    var q := n / d;
    if Up(1) <= q {
      MulMono(Up(1), q, d);
      assert false;
    }
  }

  lemma WordAlgebra(v: nat, t: nat, d: nat, rem: nat, x: nat, q: nat, rem': nat, t': nat)
    requires v == t * d + rem && Up(rem) + x == q * d + rem' && t' == q + Up(t)
    ensures x + Up(v) == t' * d + rem'
  {
  }

  lemma DivWordStep(a: seq<u64>, r: seq<u64>, i: nat, d: u64, rem: u64, q: u64, rem': u64)
    requires i < |a| == |r| && Up(rem) + a[i] == q * d + rem'
    requires Val(a[i + 1..]) == Val(r[i + 1..]) * d + rem
    ensures Val(a[i..]) == Val(r[i := q][i..]) * d + rem'
  {
    var r' := r[i := q];
    assert r'[i + 1..] == r[i + 1..];
    ValDrop(a, i);
    ValDrop(r', i);
    WordAlgebra(Val(a[i + 1..]), Val(r[i + 1..]), d, rem, a[i], q, rem', Val(r'[i..]));
  }

  /** `div_rem_u64`: one u128 division per limb, from the most significant limb down. */
  method DivRemU64(a: seq<u64>, d: u64) returns (r: seq<u64>, rem: u64)
    requires d > 0
    ensures |r| == |a|
    ensures Val(r) == Val(a) / d && rem == Val(a) % d
  {
    r, rem := a, 0;
    var i := |a|;
    assert a[i..] == [] && r[i..] == [];
    while i > 0
      invariant 0 <= i <= |a| && |r| == |a| && rem < d
      invariant forall j :: 0 <= j < i ==> r[j] == a[j]
      invariant Val(a[i..]) == Val(r[i..]) * d + rem
    {
      i := i - 1;
      var q, rem' := DivWord(rem, r[i], d);
      DivWordStep(a, r, i, d, rem, q, rem');
      r, rem := r[i := q], rem';
    }
    assert a[0..] == a && r[0..] == r;
    DivModUnique(Val(a), d, Val(r), rem);
  }

  // ---- Long division -------------------------------------------------------------------------------

  lemma {:induction false} LowZero(k: nat)
    ensures Low(0, k) == 0
  {
    if k != 0 {
      LowZero(k - 1);
    }
  }

  /** A multiple of 2^(k+1), with or without 2^k added, is a multiple of 2^k. */
  lemma {:induction false} LowStep(x: nat, k: nat)
    requires Low(x, k + 1) == 0
    ensures Low(x, k) == 0 && Low(x + Pow2(k), k) == 0
  {
    if k != 0 {
      LowStep(x / 2, k - 1);
      assert (x + Pow2(k)) / 2 == x / 2 + Pow2(k - 1);
    }
  }

  lemma OrFreeBit(x: nat, k: nat)
    requires Low(x, k + 1) == 0
    ensures Or(x, Pow2(k)) == x + Pow2(k)
  {
    ShrLow(x, k + 1);
    OrDisjoint(Shr(x, k + 1), Pow2(k), k + 1);
  }

  lemma {:induction false} ShlOne(k: nat)
    requires k < 64
    ensures WordShl(1, k) == Pow2(k) && Pow2(k) < 0x1_0000_0000_0000_0000
  {
    ShlIsMul(1, k);
    Pow2Constants();
    Pow2Mono(k + 1, 64);
  }

  /** The quotient bits above `shift` are decided, those at and below it are still zero. */
  ghost predicate BitsBelowClear(q: seq<u64>, shift: nat)
  {
    shift / 64 < |q| && (forall i :: 0 <= i < shift / 64 ==> q[i] == 0) && Low(q[shift / 64], shift % 64 + 1) == 0
  }

  /** `ret[shift / 64] |= 1 << (shift % 64)` adds 2^shift and leaves the lower bits clear. */
  lemma SetBit(q: seq<u64>, shift: nat)
    requires BitsBelowClear(q, shift)
    ensures var i, k := shift / 64, shift % 64;
            var q' := q[i := WordOr(q[i], WordShl(1, k))];
            Val(q') == Val(q) + Pow2(shift) && Low(q'[i], k) == 0
  {
    var i, k := shift / 64, shift % 64;
    ShlOne(k);
    LowStep(q[i], k);
    OrFreeBit(q[i], k);
    ValUpdate(q, i, WordOr(q[i], WordShl(1, k)));
    BShift(i, k);
    SetBitAlgebra(B(i), q[i], Pow2(k));
  }

  lemma SetBitAlgebra(b: nat, x: nat, p: nat)
    ensures b * (x + p) == b * x + b * p
  {
  }

  lemma NextBit(q: seq<u64>, shift: nat)
    requires shift > 0 && shift / 64 < |q| && (forall i :: 0 <= i < shift / 64 ==> q[i] == 0)
    requires Low(q[shift / 64], shift % 64) == 0
    ensures BitsBelowClear(q, shift - 1)
  {
    var i, k := BitBefore(shift);
    if k == 63 {
      LowZero(k + 1);
    }
  }

  /** Word and bit of the position below. */
  lemma BitBefore(shift: nat) returns (i: nat, k: nat)
    requires shift > 0
    ensures i == (shift - 1) / 64 && k == (shift - 1) % 64
    ensures if shift % 64 == 0 then shift / 64 == i + 1 && k == 63 else shift / 64 == i && shift % 64 == k + 1
  {
    i, k := (shift - 1) / 64, (shift - 1) % 64;
  }

  /** Aligning the divisor under the dividend neither overflows nor leaves it more than one bit short. */
  lemma Align(a: nat, d: nat, shift: nat, n: nat)
    requires d > 0 && BitLen(a) == BitLen(d) + shift && BitLen(a) <= 64 * n
    ensures Shl(d, shift) < B(n)
    ensures a < 2 * Shl(d, shift)
    ensures shift < 64 * n
  {
    BitLenBounds(a);
    BitLenBounds(d);
    var m := BitLen(d);
    Pow2Add(m, shift);
    Pow2Add(m - 1, shift);
    ShlIsMul(d, shift);
    LeadingDigit(0, Pow2(shift), d, Pow2(m));
    MulMono(Pow2(m - 1), d, Pow2(shift));
    BIsPow2(n);
    Pow2Mono(BitLen(a), 64 * n);
  }

  /** What one round proves about the numbers: `p` is 2^shift and `c` the shifted divisor. */
  lemma RoundTaken(a: nat, q: nat, d: nat, s: nat, p: nat, c: nat, q': nat, s': nat)
    requires a == q * d + s && c == d * p && s' + c == s && q' == q + p
    ensures a == q' * d + s'
  {
  }

  /** The shift of the divisor before the first round; it cannot overflow. */
  method AlignDivisor(b: seq<u64>, shift: nat) returns (c: seq<u64>)
    requires shift < 64 * |b| && Shl(Val(b), shift) < B(|b|)
    ensures |c| == |b| && Val(c) == Shl(Val(b), shift)
  {
    var overflows;
    c, overflows := OverflowingShl(b, shift);
    assert !overflows;
    ShlExact(Val(b), shift, |b|, Val(c));
  }

  /** The shift by one at the end of a round. */
  method HalveDivisor(c: seq<u64>, shift: nat, ghost d: nat) returns (c': seq<u64>)
    requires |c| > 0 && Val(c) == Shl(d, shift)
    ensures |c'| == |c| && (shift > 0 ==> Val(c') == Shl(d, shift - 1))
  {
    var overflows;
    c', overflows := OverflowingShr(c, 1);
    assert !overflows;
    if shift > 0 {
      HalveExact(d, shift, |c|, Val(c'));
    }
  }

  /** The rounds of `div_rem`, from the aligned divisor down to the divisor itself. */
  method Rounds(a: seq<u64>, c0: seq<u64>, shift0: nat, ghost d: nat)
    returns (q: seq<u64>, r: seq<u64>, ghost rounds: nat)
    requires |a| == |c0| && shift0 < 64 * |a| && Val(c0) == Shl(d, shift0) && Val(a) < 2 * Shl(d, shift0)
    ensures |q| == |a| && |r| == |a| && rounds == shift0 + 1
    ensures Val(a) == Val(q) * d + Val(r) && Val(r) < d
  {
    var n, c, shift := |a|, c0, shift0;
    q, r, rounds := Zeros(n), a, 0;
    ValZeros(q);
    MulZero(d, Val(q));
    LowZero(shift % 64 + 1);
    while true
      invariant |q| == n && |r| == n && |c| == n && rounds + shift == shift0
      invariant 0 <= shift < 64 * n && BitsBelowClear(q, shift)
      invariant Val(c) == Shl(d, shift)
      invariant Val(a) == Val(q) * d + Val(r)
      invariant Val(r) < 2 * Shl(d, shift)
      decreases shift
    {
      q, r := Round(q, r, c, shift, Val(a), d);
      c := HalveDivisor(c, shift, d);
      rounds := rounds + 1;
      if shift == 0 {
        break;
      }
      NextBit(q, shift);
      shift := shift - 1;
    }
  }

  /** `div_rem`: shift-and-subtract, one round per candidate quotient bit. */
  method DivRem(a: seq<u64>, b: seq<u64>) returns (q: seq<u64>, r: seq<u64>, ghost rounds: nat)
    requires |a| == |b|
    requires Val(b) != 0
    ensures |q| == |a| && |r| == |a|
    ensures Val(q) == Val(a) / Val(b) && Val(r) == Val(a) % Val(b)
    ensures rounds == if BitLen(Val(a)) < BitLen(Val(b)) then 0 else BitLen(Val(a)) - BitLen(Val(b)) + 1
  {
    var myBits := Bits(a);
    var yourBits := Bits(b);
    if myBits < yourBits {
      q, r, rounds := Zeros(|a|), a, 0;
      ValZeros(q);
      SmallerBits(Val(a), Val(b));
      return;
    }
    var shift := myBits - yourBits;
    Align(Val(a), Val(b), shift, |a|);
    var c := AlignDivisor(b, shift);
    q, r, rounds := Rounds(a, c, shift, Val(b));
    DivModUnique(Val(a), Val(b), Val(q), Val(r));
  }

  /** One round of `div_rem`: subtract the shifted divisor if it fits, and record the bit. */
  method Round(q: seq<u64>, r: seq<u64>, c: seq<u64>, shift: nat, ghost a: nat, ghost d: nat)
    returns (q': seq<u64>, r': seq<u64>)
    requires |q| == |r| == |c| && BitsBelowClear(q, shift)
    requires Val(c) == Shl(d, shift) && a == Val(q) * d + Val(r) && Val(r) < 2 * Shl(d, shift)
    ensures |q'| == |q| && |r'| == |r|
    ensures a == Val(q') * d + Val(r') && Val(r') < Shl(d, shift)
    ensures (forall i :: 0 <= i < shift / 64 ==> q'[i] == 0) && Low(q'[shift / 64], shift % 64) == 0
  {
    q', r' := q, r;
    var i, k := shift / 64, shift % 64;
    LowStep(q[i], k);
    var o := Compare(r, c);
    if !o.Less? {
      SetBit(q, shift);
      q' := q[i := WordOr(q[i], WordShl(1, k))];
      var borrow;
      r', borrow := OverflowingSub(r, c);
      assert !borrow;
      ShlIsMul(d, shift);
      RoundTaken(a, Val(q), d, Val(r), Pow2(shift), Val(c), Val(q'), Val(r'));
    }
  }

  lemma SmallerBits(a: nat, d: nat)
    requires BitLen(a) < BitLen(d)
    ensures d > 0 && a / d == 0 && a % d == a
  {
    BitLenBounds(a);
    BitLenBounds(d);
    Pow2Mono(BitLen(a), BitLen(d) - 1);
    DivModUnique(a, d, 0, a);
  }

  lemma ShlExact(d: nat, shift: nat, n: nat, c: nat)
    requires shift < 64 * n && Shl(d, shift) < B(n)
    requires c == d * Pow2(shift % (64 * n)) % B(n)
    ensures c == Shl(d, shift)
  {
    DivModUnique(shift, 64 * n, 0, shift);
    ShlIsMul(d, shift);
    DivModUnique(Shl(d, shift), B(n), 0, Shl(d, shift));
  }

  lemma HalveExact(d: nat, shift: nat, n: nat, c: nat)
    requires shift > 0 && n > 0
    requires c == Shl(d, shift) / Pow2(1 % (64 * n))
    ensures c == Shl(d, shift - 1)
  {
    DivModUnique(1, 64 * n, 0, 1);
  }
}
