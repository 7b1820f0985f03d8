/**
 * The value view of `construct_uint!`: a fixed-width integer is a little-endian sequence of 64-bit
 * limbs, and `Val` is the number it stands for. The limb count is arbitrary.
 */
module Limbs {
  import opened Powers

  type u64 = x: nat | x < 0x1_0000_0000_0000_0000
  type u128 = x: nat | x < 0x1_0000_0000_0000_0000_0000_0000_0000_0000

  /** `v` moved up by one limb: multiplication by 2^64, with the literal factor kept in sight of the solver. */
  function Up(v: int): (u: int)
  {
    0x1_0000_0000_0000_0000 * v
  }

  /** Truncation of a wider intermediate to one word, and what it drops. */
  function Lo64(v: nat): (r: u64)
  {
    v % 0x1_0000_0000_0000_0000
  }

  function Hi64(v: nat): (r: nat)
  {
    v / 0x1_0000_0000_0000_0000
  }

  lemma Split64(v: nat, q: nat, r: nat)
    requires v == Up(q) + r && r < Up(1)
    ensures Lo64(v) == r && Hi64(v) == q
  {
  }

  /** `B(n)` is 2^(64n), the first value that n limbs cannot hold. */
  function B(n: nat): (b: nat)
    ensures b > 0
  {
    if n == 0 then 1 else Up(B(n - 1))
  }

  function Val(s: seq<u64>): (v: nat)
  {
    if |s| == 0 then 0 else s[0] + Up(Val(s[1..]))
  }

  function Zeros(n: nat): (s: seq<u64>)
    ensures |s| == n && forall i :: 0 <= i < n ==> s[i] == 0
  {
    seq(n, i => 0)
  }

  lemma UpMul(a: nat, b: nat)
    ensures Up(a) * b == Up(a * b)
  {
  }

  lemma {:induction false} BIsPow2(n: nat)
    ensures B(n) == Pow2(64 * n)
  {
    if n != 0 {
      BIsPow2(n - 1);
      Pow2Constants();
      Pow2Add(64, 64 * (n - 1));
    }
  }

  lemma {:induction false} BShift(w: nat, k: nat)
    ensures Pow2(64 * w + k) == B(w) * Pow2(k)
  {
    if w != 0 {
      BShift(w - 1, k);
      Pow2Constants();
      Pow2Add(64, 64 * (w - 1) + k);
      UpMul(B(w - 1), Pow2(k));
    }
  }

  lemma {:induction false} BAdd(m: nat, n: nat)
    ensures B(m + n) == B(m) * B(n)
  {
    if m != 0 {
      BAdd(m - 1, n);
      UpMul(B(m - 1), B(n));
    }
  }

  lemma {:induction false} ValConcat(a: seq<u64>, b: seq<u64>)
    ensures Val(a + b) == Val(a) + B(|a|) * Val(b)
  {
    if |a| == 0 {
      assert a + b == b;
    } else {
      var t := a[1..];
      assert (a + b)[1..] == t + b;
      ValConcat(t, b);
      ConcatStep(B(|t|), B(|a|), Val(t), Val(b), Val(t + b));
    }
  }

  lemma ConcatStep(b: nat, b': nat, x: nat, y: nat, v: nat)
    requires b' == Up(b) && v == x + b * y
    ensures Up(v) == Up(x) + b' * y
  {
  }

  lemma ValSplit(s: seq<u64>, i: nat)
    requires i <= |s|
    ensures Val(s) == Val(s[..i]) + B(i) * Val(s[i..])
  {
    assert s == s[..i] + s[i..];
    ValConcat(s[..i], s[i..]);
  }

  /** Extending a prefix by one limb. */
  lemma ValTake(s: seq<u64>, i: nat)
    requires i < |s|
    ensures Val(s[..i + 1]) == Val(s[..i]) + B(i) * s[i]
  {
    assert s[..i + 1] == s[..i] + [s[i]];
    ValConcat(s[..i], [s[i]]);
    assert [s[i]][1..] == [];
  }

  /** Extending a suffix by one limb. */
  lemma ValDrop(s: seq<u64>, i: nat)
    requires i < |s|
    ensures Val(s[i..]) == s[i] + Up(Val(s[i + 1..]))
  {
    assert s[i..][1..] == s[i + 1..];
  }

  lemma {:induction false} ValBound(s: seq<u64>)
    ensures Val(s) < B(|s|)
  {
    if |s| != 0 {
      ValBound(s[1..]);
    }
  }

  /** A value below 2^64 is its lowest limb. */
  lemma ValWord(s: seq<u64>)
    requires |s| > 0 && Val(s) < 0x1_0000_0000_0000_0000
    ensures s[0] == Val(s)
  {
  }

  lemma {:induction false} ValZeros(s: seq<u64>)
    requires forall i :: 0 <= i < |s| ==> s[i] == 0
    ensures Val(s) == 0
  {
    if |s| != 0 {
      ValZeros(s[1..]);
    }
  }

  lemma ValPadHigh(s: seq<u64>, m: nat)
    requires m <= |s| && forall i :: m <= i < |s| ==> s[i] == 0
    ensures Val(s) == Val(s[..m])
  {
    ValSplit(s, m);
    ValZeros(s[m..]);
    MulZero(B(m), Val(s[m..]));
  }

  lemma ValPadLow(s: seq<u64>, w: nat)
    requires w <= |s| && forall i :: 0 <= i < w ==> s[i] == 0
    ensures Val(s) == B(w) * Val(s[w..])
  {
    ValSplit(s, w);
    ValZeros(s[..w]);
  }

  lemma {:induction false} ValZeroMeansZeros(s: seq<u64>)
    requires Val(s) == 0
    ensures forall i :: 0 <= i < |s| ==> s[i] == 0
  {
    if |s| != 0 {
      ValZeroMeansZeros(s[1..]);
      assert s == [s[0]] + s[1..];
    }
  }

  /** Limb sequences of one length are determined by their values. */
  lemma {:induction false} ValInjective(a: seq<u64>, b: seq<u64>)
    requires |a| == |b| && Val(a) == Val(b)
    ensures a == b
  {
    if |a| != 0 {
      ValInjective(a[1..], b[1..]);
      assert a == [a[0]] + a[1..];
      assert b == [b[0]] + b[1..];
    }
  }

  /** Changing one limb changes the value by the limb's weight. */
  lemma ValUpdate(s: seq<u64>, i: nat, x: u64)
    requires i < |s|
    ensures Val(s[i := x]) + B(i) * s[i] == Val(s) + B(i) * x
  {
    var t := s[i := x];
    ValSplit(s, i + 1);
    ValSplit(t, i + 1);
    ValTake(s, i);
    ValTake(t, i);
    assert t[..i] == s[..i] && t[i + 1..] == s[i + 1..];
  }
}
