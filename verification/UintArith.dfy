/** Addition, subtraction and multiplication of `construct_uint!`. */
module UintArith {
  import opened Powers
  import opened Limbs

  function Bit(c: bool): (r: nat)
  {
    if c then 1 else 0
  }

  // ---- Addition and subtraction --------------------------------------------------------------------

  /** `u64::overflowing_add`. */
  function OverflowingAdd64(x: u64, y: u64): (r: (u64, bool))
    ensures r.0 + Up(Bit(r.1)) == x + y
  {
    if x + y < 0x1_0000_0000_0000_0000 then (x + y, false) else (x + y - 0x1_0000_0000_0000_0000, true)
  }

  /** `u64::overflowing_sub`. */
  function OverflowingSub64(x: u64, y: u64): (r: (u64, bool))
    ensures r.0 + y == x + Up(Bit(r.1))
  {
    if y <= x then (x - y, false) else (x + 0x1_0000_0000_0000_0000 - y, true)
  }

  /** `carrying_add_u64`: two overflowing additions, at most one of which overflows. */
  function CarryingAdd64(x: u64, y: u64, carry: bool): (r: (u64, bool))
    ensures r.0 + Up(Bit(r.1)) == x + y + Bit(carry)
  {
    var (a, b) := OverflowingAdd64(x, y);
    var (c, d) := OverflowingAdd64(a, Bit(carry));
    (c, b != d)
  }

  /** `borrowing_sub_u64`: two overflowing subtractions, at most one of which borrows. */
  function BorrowingSub64(x: u64, y: u64, borrow: bool): (r: (u64, bool))
    ensures r.0 + y + Bit(borrow) == x + Up(Bit(r.1))
  {
    var (a, b) := OverflowingSub64(x, y);
    var (c, d) := OverflowingSub64(a, Bit(borrow));
    (c, b != d)
  }

  lemma AddAlgebra(b: nat, va: nat, vb: nat, vr: nat, x: nat, y: nat, z: nat, c: nat, c': nat)
    requires z + Up(c') == x + y + c && vr + b * c == va + vb
    ensures vr + b * z + Up(b) * c' == va + b * x + (vb + b * y)
  {
    assert b * (z + Up(c')) == b * (x + y + c);
  }

  lemma AddStep(a: seq<u64>, b: seq<u64>, r: seq<u64>, i: nat, z: u64, c: bool, c': bool)
    requires i < |a| == |b| == |r|
    requires z + Up(Bit(c')) == a[i] + b[i] + Bit(c)
    requires Val(r[..i]) + B(i) * Bit(c) == Val(a[..i]) + Val(b[..i])
    ensures Val(r[i := z][..i + 1]) + B(i + 1) * Bit(c') == Val(a[..i + 1]) + Val(b[..i + 1])
  {
    var r' := r[i := z];
    assert r'[..i] == r[..i];
    ValTake(r', i);
    ValTake(a, i);
    ValTake(b, i);
    AddAlgebra(B(i), Val(a[..i]), Val(b[..i]), Val(r[..i]), a[i], b[i], z, Bit(c), Bit(c'));
  }

  /** `overflowing_add`. */
  method OverflowingAdd(a: seq<u64>, b: seq<u64>) returns (r: seq<u64>, carry: bool)
    requires |a| == |b|
    ensures |r| == |a|
    ensures Val(r) + (if carry then B(|a|) else 0) == Val(a) + Val(b)
  {
    r, carry := a, false;
    var i := 0;
    while i < |a|
      invariant 0 <= i <= |a| && |r| == |a|
      invariant forall j :: i <= j < |a| ==> r[j] == a[j]
      invariant Val(r[..i]) + B(i) * Bit(carry) == Val(a[..i]) + Val(b[..i])
    {
      var (z, c) := CarryingAdd64(r[i], b[i], carry);
      AddStep(a, b, r, i, z, carry, c);
      r, carry := r[i := z], c;
      i := i + 1;
    }
    assert r[..|a|] == r && a[..|a|] == a && b[..|a|] == b;
  }

  lemma SubAlgebra(b: nat, va: nat, vb: nat, vr: nat, x: nat, y: nat, z: nat, c: nat, c': nat)
    requires z + y + c == x + Up(c') && vr + vb == va + b * c
    ensures vr + b * z + (vb + b * y) == va + b * x + Up(b) * c'
  {
    assert b * (z + y + c) == b * (x + Up(c'));
  }

  lemma SubStep(a: seq<u64>, b: seq<u64>, r: seq<u64>, i: nat, z: u64, c: bool, c': bool)
    requires i < |a| == |b| == |r|
    requires z + b[i] + Bit(c) == a[i] + Up(Bit(c'))
    requires Val(r[..i]) + Val(b[..i]) == Val(a[..i]) + B(i) * Bit(c)
    ensures Val(r[i := z][..i + 1]) + Val(b[..i + 1]) == Val(a[..i + 1]) + B(i + 1) * Bit(c')
  {
    var r' := r[i := z];
    assert r'[..i] == r[..i];
    ValTake(r', i);
    ValTake(a, i);
    ValTake(b, i);
    SubAlgebra(B(i), Val(a[..i]), Val(b[..i]), Val(r[..i]), a[i], b[i], z, Bit(c), Bit(c'));
  }

  lemma SubFinish(a: seq<u64>, b: seq<u64>, r: seq<u64>, borrow: bool)
    requires |a| == |b| == |r| && Val(r) + Val(b) == Val(a) + B(|a|) * Bit(borrow)
    ensures borrow <==> Val(a) < Val(b)
    ensures Val(r) + Val(b) == Val(a) + (if borrow then B(|a|) else 0)
  {
    ValBound(r);
    ValBound(b);
    BorrowExactly(Val(a), Val(b), Val(r), B(|a|), Bit(borrow));
  }

  lemma BorrowExactly(a: nat, b: nat, r: nat, n: nat, c: nat)
    requires r + b == a + n * c && r < n && b < n && c <= 1
    ensures c == 1 <==> a < b
    ensures n * c == if c == 1 then n else 0
  {
  }

  /** `overflowing_sub`. */
  method OverflowingSub(a: seq<u64>, b: seq<u64>) returns (r: seq<u64>, borrow: bool)
    requires |a| == |b|
    ensures |r| == |a|
    ensures borrow <==> Val(a) < Val(b)
    ensures Val(r) + Val(b) == Val(a) + (if borrow then B(|a|) else 0)
  {
    r, borrow := a, false;
    var i := 0;
    while i < |a|
      invariant 0 <= i <= |a| && |r| == |a|
      invariant forall j :: i <= j < |a| ==> r[j] == a[j]
      invariant Val(r[..i]) + Val(b[..i]) == Val(a[..i]) + B(i) * Bit(borrow)
    {
      var (z, c) := BorrowingSub64(r[i], b[i], borrow);
      SubStep(a, b, r, i, z, borrow, c);
      r, borrow := r[i := z], c;
      i := i + 1;
    }
    assert r[..|a|] == r && a[..|a|] == a && b[..|a|] == b;
    SubFinish(a, b, r, borrow);
  }

  /** `overflowing_add_u64`: stops at the first limb that does not carry. */
  method OverflowingAddU64(a: seq<u64>, x: u64) returns (r: seq<u64>, carry: bool)
    requires |a| > 0
    ensures |r| == |a|
    ensures Val(r) + (if carry then B(|a|) else 0) == Val(a) + x
  {
    var (z, c) := OverflowingAdd64(a[0], x);
    r, carry := a[0 := z], c;
    ValUpdate(a, 0, z);
    var i := 1;
    while i < |a| && carry
      invariant 1 <= i <= |a| && |r| == |a| && r[i..] == a[i..]
      invariant Val(r) + B(i) * Bit(carry) == Val(a) + x
    {
      assert r[i] == a[i..][0];
      var (z, c) := OverflowingAdd64(r[i], 1);
      ValUpdate(r, i, z);
      CarryOn(B(i), Val(r), Val(r[i := z]), r[i], z, Bit(c));
      ghost var r0 := r;
      r, carry := r[i := z], c;
      assert r[i + 1..] == r0[i..][1..] == a[i + 1..];
      i := i + 1;
    }
  }

  lemma CarryOn(b: nat, v: nat, v': nat, x: nat, z: nat, c: nat)
    requires v' + b * x == v + b * z && z + Up(c) == x + 1
    ensures v' + Up(b) * c == v + b
  {
    assert b * (z + Up(c)) == b * (x + 1);
  }

  // ---- Multiplication ------------------------------------------------------------------------------

  lemma MulRowAlgebra(bi: nat, bj: nat, bij: nat, va: nat, v0: nat, vr: nat, x: nat, y: nat, old_: nat,
                      lo: nat, hi: nat, c: nat)
    requires bij == bi * bj && lo + Up(hi) == x * y + old_ + c
    requires vr + bij * c == v0 + bj * (y * va)
    ensures vr + bij * lo + Up(bij) * hi == v0 + bij * old_ + bj * (y * (va + bi * x))
  {
    assert bij * (lo + Up(hi)) == bij * (x * y + old_ + c);
    assert bj * (y * (va + bi * x)) == bj * (y * va) + (bi * bj) * (x * y);
  }

  /** A 64x64 product plus two words always fits u128. */
  lemma ProductFits(x: u64, y: u64, z: u64, c: u64)
    ensures x * y + z + c < 0x1_0000_0000_0000_0000_0000_0000_0000_0000
  {
    MulMono(x, 0xffff_ffff_ffff_ffff, y);
  }

  function MulAdd(x: u64, y: u64, z: u64, c: u64): (n: u128)
    ensures n == x * y + z + c
  {
    ProductFits(x, y, z, c);
    x * y + z + c
  }

  /** What one step of a multiplication row establishes, limb k = i + j being rewritten. */
  lemma MulRowStep(a: seq<u64>, y: u64, j: nat, i: nat, r0: seq<u64>, r: seq<u64>, carry: u64, n: nat)
    requires i + j < |a| == |r| == |r0| && r[i + j] == r0[i + j]
    requires n == a[i] * y + r0[i + j] + carry
    requires Val(r[..i + j]) + B(i + j) * carry == Val(r0[..i + j]) + B(j) * (y * Val(a[..i]))
    ensures var r' := r[i + j := Lo64(n)];
            Val(r'[..i + j + 1]) + B(i + j + 1) * Hi64(n) == Val(r0[..i + j + 1]) + B(j) * (y * Val(a[..i + 1]))
  {
    var k := i + j;
    var r' := r[k := Lo64(n)];
    assert r'[..k] == r[..k];
    ValTake(r', k);
    ValTake(r0, k);
    ValTake(a, i);
    BAdd(i, j);
    MulRowAlgebra(B(i), B(j), B(k), Val(a[..i]), Val(r0[..k]), Val(r[..k]), a[i], y, r0[k], Lo64(n), Hi64(n), carry);
  }

  ghost function Row(b: nat, y: nat, v: nat): (r: nat)
  {
    b * (y * v)
  }

  /**
   * The products that `overflowing_mul` computes: the sum over j < k and i + j < n of
   * a[i] * b[j] * 2^(64(i+j)), one row per limb of b.
   */
  ghost function KeptRows(a: seq<u64>, b: seq<u64>, k: nat): (v: nat)
    requires k <= |a| == |b|
  {
    if k == 0 then 0 else KeptRows(a, b, k - 1) + Row(B(k - 1), b[k - 1], Val(a[..|a| - (k - 1)]))
  }

  /** The products it never computes, those with i + j >= n, in units of 2^(64n). */
  ghost function SkippedRows(a: seq<u64>, b: seq<u64>, k: nat): (v: nat)
    requires k <= |a| == |b|
  {
    if k == 0 then 0 else SkippedRows(a, b, k - 1) + b[k - 1] * Val(a[|a| - (k - 1)..])
  }

  ghost function Kept(a: seq<u64>, b: seq<u64>): (v: nat)
    requires |a| == |b|
  {
    KeptRows(a, b, |b|)
  }

  /** One row: `result += a * b[j] * 2^(64j)` on the limbs that remain. */
  method MulRow(a: seq<u64>, y: u64, j: nat, r0: seq<u64>) returns (r: seq<u64>, carry: u64)
    requires j < |a| == |r0|
    ensures |r| == |a|
    ensures Val(r) + B(|a|) * carry == Val(r0) + B(j) * (y * Val(a[..|a| - j]))
  {
    r, carry := r0, 0;
    var i := 0;
    while i + j < |a|
      invariant 0 <= i <= |a| - j && |r| == |a|
      invariant forall m :: i + j <= m < |a| ==> r[m] == r0[m]
      invariant Val(r[..i + j]) + B(i + j) * carry == Val(r0[..i + j]) + B(j) * (y * Val(a[..i]))
    {
      var n := MulAdd(a[i], y, r[i + j], carry);
      MulRowStep(a, y, j, i, r0, r, carry, n);
      r, carry := r[i + j := Lo64(n)], Hi64(n);
      i := i + 1;
    }
    assert r[..|a|] == r && r0[..|a|] == r0;
  }

  lemma CarryAlgebra(bn: nat, v: nat, v': nat, c: nat, c': nat, rows: nat, row: int)
    requires v + bn * c == rows && v' + bn * c' == v + row
    ensures v' + bn * (c + c') == rows + row
  {
  }

  /** `overflowing_mul`: schoolbook multiplication that drops every pair of limbs with i + j >= n. */
  method OverflowingMul(a: seq<u64>, b: seq<u64>) returns (r: seq<u64>, overflows: bool)
    requires |a| == |b|
    ensures |r| == |a|
    ensures Val(r) == Val(a) * Val(b) % B(|a|)
    ensures overflows <==> Kept(a, b) >= B(|a|)
  {
    r, overflows := Zeros(|a|), false;
    ValZeros(r);
    ghost var dropped: nat := 0;
    var j := 0;
    while j < |b|
      invariant 0 <= j <= |b| && |r| == |a|
      invariant overflows <==> dropped > 0
      invariant Val(r) + B(|a|) * dropped == KeptRows(a, b, j)
    {
      var r', carry := MulRow(a, b[j], j, r);
      CarryAlgebra(B(|a|), Val(r), Val(r'), dropped, carry, KeptRows(a, b, j), Row(B(j), b[j], Val(a[..|a| - j])));
      r, overflows := r', overflows || carry != 0;
      dropped := dropped + carry;
      j := j + 1;
    }
    MulFinish(a, b, r, dropped);
  }

  lemma MulFinish(a: seq<u64>, b: seq<u64>, r: seq<u64>, dropped: nat)
    requires |a| == |b| == |r|
    requires Val(r) + B(|a|) * dropped == Kept(a, b)
    ensures Val(r) == Val(a) * Val(b) % B(|a|)
    ensures dropped > 0 <==> Kept(a, b) >= B(|a|)
  {
    ValBound(r);
    ProductSplits(a, b);
    ProductMod(B(|a|), Val(r), dropped, Kept(a, b), SkippedRows(a, b, |b|), Val(a) * Val(b));
  }

  lemma ProductMod(bn: nat, r: nat, d: nat, kept: nat, skipped: nat, p: int)
    requires r < bn && r + bn * d == kept && p == kept + bn * skipped
    ensures p % bn == r
    ensures kept >= bn <==> d > 0
    ensures p >= bn <==> d > 0 || skipped > 0
  {
    assert p == (d + skipped) * bn + r;
    DivModUnique(p, bn, d + skipped, r);
    MulMono(if d > 0 then 1 else 0, d, bn);
    MulMono(if d + skipped > 0 then 1 else 0, d + skipped, bn);
  }

  lemma RowAlgebra(bj: nat, bm: nat, bn: nat, y: nat, lo: nat, hi: nat, va: nat, vb: nat, kept: nat, skipped: nat)
    requires va == lo + bm * hi && bn == bj * bm && va * vb == kept + bn * skipped
    ensures va * (vb + bj * y) == kept + bj * (y * lo) + bn * (skipped + y * hi)
  {
    assert va * (bj * y) == bj * (y * lo) + (bj * bm) * (y * hi);
  }

  lemma {:induction false} RowsSplit(a: seq<u64>, b: seq<u64>, k: nat)
    requires k <= |a| == |b|
    ensures Val(a) * Val(b[..k]) == KeptRows(a, b, k) + B(|a|) * SkippedRows(a, b, k)
  {
    if k != 0 {
      var j := k - 1;
      var m := |a| - j;
      RowsSplit(a, b, j);
      ValTake(b, j);
      ValSplit(a, m);
      BAdd(j, m);
      RowAlgebra(B(j), B(m), B(|a|), b[j], Val(a[..m]), Val(a[m..]), Val(a), Val(b[..j]), KeptRows(a, b, j),
                 SkippedRows(a, b, j));
    }
  }

  lemma ProductSplits(a: seq<u64>, b: seq<u64>)
    requires |a| == |b|
    ensures Val(a) * Val(b) == Kept(a, b) + B(|a|) * SkippedRows(a, b, |b|)
  {
    RowsSplit(a, b, |b|);
    assert b[..|b|] == b;
  }

  // ---- What the flag of `overflowing_mul` means --------------------------------------------------------

  /** Some pair of non-zero limbs lies entirely above the width, where the loop never looks. */
  ghost predicate HasSkippedPair(a: seq<u64>, b: seq<u64>)
    requires |a| == |b|
  {
    exists i, j :: 0 <= i < |a| && 0 <= j < |b| && i + j >= |a| && a[i] != 0 && b[j] != 0
  }

  lemma {:induction false} SkippedRowsZero(a: seq<u64>, b: seq<u64>, k: nat)
    requires k <= |a| == |b|
    requires forall i, j :: 0 <= i < |a| && 0 <= j < k && i + j >= |a| ==> a[i] == 0 || b[j] == 0
    ensures SkippedRows(a, b, k) == 0
  {
    if k != 0 {
      var j := k - 1;
      SkippedRowsZero(a, b, j);
      if b[j] != 0 {
        ValZeros(a[|a| - j..]);
        MulZero(b[j], Val(a[|a| - j..]));
      } else {
        MulZero(Val(a[|a| - j..]), b[j]);
      }
    }
  }

  lemma RowGrows(v: nat, x: nat, y: nat, v': nat)
    requires v' == v + x * y
    ensures v' >= v
  {
  }

  lemma PositiveRow(v: nat, x: nat, y: nat, v': nat)
    requires v' == v + x * y && x > 0 && y > 0
    ensures v' > 0
  {
    MulMono(1, x, y);
  }

  lemma {:induction false} SkippedRowsPositive(a: seq<u64>, b: seq<u64>, k: nat, i: nat, j: nat)
    requires j < k <= |a| == |b| && i < |a| && i + j >= |a| && a[i] != 0 && b[j] != 0
    ensures SkippedRows(a, b, k) > 0
  {
    if j < k - 1 {
      SkippedRowsPositive(a, b, k - 1, i, j);
      RowGrows(SkippedRows(a, b, k - 1), b[k - 1], Val(a[|a| - (k - 1)..]), SkippedRows(a, b, k));
    } else {
      var t := a[|a| - j..];
      assert t[i - (|a| - j)] == a[i];
      if Val(t) == 0 {
        ValZeroMeansZeros(t);
        assert false;
      }
      PositiveRow(SkippedRows(a, b, j), b[j], Val(t), SkippedRows(a, b, k));
    }
  }

  /** The product overflows exactly when the flag is set or a pair of limbs was skipped. */
  lemma OverflowExactly(a: seq<u64>, b: seq<u64>)
    requires |a| == |b|
    ensures Val(a) * Val(b) >= B(|a|) <==> Kept(a, b) >= B(|a|) || HasSkippedPair(a, b)
  {
    ProductSplits(a, b);
    var s := SkippedRows(a, b, |b|);
    if HasSkippedPair(a, b) {
      var i, j :| 0 <= i < |a| && 0 <= j < |b| && i + j >= |a| && a[i] != 0 && b[j] != 0;
      SkippedRowsPositive(a, b, |b|, i, j);
      MulMono(1, s, B(|a|));
    } else {
      SkippedRowsZero(a, b, |b|);
      MulZero(B(|a|), s);
    }
  }

  /** A set flag is always a real overflow; the flag is exact precisely when it is set or nothing was skipped. */
  lemma FlagExactWhen(a: seq<u64>, b: seq<u64>)
    requires |a| == |b|
    ensures Kept(a, b) >= B(|a|) ==> Val(a) * Val(b) >= B(|a|)
    ensures (Kept(a, b) >= B(|a|) <==> Val(a) * Val(b) >= B(|a|)) <==> Kept(a, b) >= B(|a|) || !HasSkippedPair(a, b)
  {
    OverflowExactly(a, b);
  }

  lemma {:induction false} KeptRowsZero(a: seq<u64>, b: seq<u64>, k: nat)
    requires k <= |a| == |b|
    requires forall i, j :: 0 <= i < |a| && 0 <= j < k && i + j < |a| ==> a[i] == 0 || b[j] == 0
    ensures KeptRows(a, b, k) == 0
  {
    if k != 0 {
      var j := k - 1;
      KeptRowsZero(a, b, j);
      if b[j] != 0 {
        ValZeros(a[..|a| - j]);
        MulZero(b[j], Val(a[..|a| - j]));
      } else {
        MulZero(Val(a[..|a| - j]), b[j]);
      }
      MulZero(B(j), b[j] * Val(a[..|a| - j]));
    }
  }

  /** In every width of at least two limbs, the square of 2^(64(n-1)) overflows, and the flag stays clear. */
  lemma FlagMissesOverflow(n: nat)
    requires n >= 2
    ensures var a := Zeros(n - 1) + [1];
            Val(a) == B(n - 1) && Kept(a, a) < B(n) && Val(a) * Val(a) >= B(n)
  {
    var a: seq<u64> := Zeros(n - 1) + [1];
    ValTake(a, n - 1);
    ValZeros(a[..n - 1]);
    assert a[..n] == a;
    KeptRowsZero(a, a, n);
    assert a[n - 1] != 0;
    OverflowExactly(a, a);
  }
}
