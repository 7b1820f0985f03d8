/** Powers of two, bit lengths and the bitwise operations that the limb code relies on. */
module Powers {

  // ---- Nonlinear steps, each stated once over plain numbers -------------------------------------------

  lemma MulMono(a: nat, b: nat, c: nat)
    requires a <= b
    ensures a * c <= b * c
    ensures c * a <= c * b
  {
  }

  lemma MulZero(a: nat, b: nat)
    requires b == 0
    ensures a * b == 0 && b * a == 0
  {
  }

  /** A digit below the base cannot outweigh a larger leading digit. */
  lemma LeadingDigit(lo: nat, b: nat, x: nat, y: nat)
    requires lo < b && x < y
    ensures lo + b * x < b * y
    ensures lo + x * b < y * b
  {
    MulMono(x + 1, y, b);
  }

  /** A quotient and remainder determine each other. */
  lemma DivModUnique(x: nat, d: nat, q: nat, r: nat)
    requires r < d
    requires x == q * d + r
    ensures x / d == q && x % d == r
  {
    var q', r' := x / d, x % d;
    assert x == q' * d + r';
    if q' < q {
      LeadingDigit(r', d, q', q);
      assert false;
    } else if q < q' {
      LeadingDigit(r, d, q, q');
      assert false;
    }
  }

  // ---- Powers of two -------------------------------------------------------------------------------

  function Pow2(k: nat): (p: nat)
    ensures p > 0
  {
    if k == 0 then 1 else 2 * Pow2(k - 1)
  }

  lemma {:induction false} Pow2Add(a: nat, b: nat)
    ensures Pow2(a + b) == Pow2(a) * Pow2(b)
  {
    if a != 0 {
      Pow2Add(a - 1, b);
      DoubleProduct(Pow2(a - 1), Pow2(b));
    }
  }

  lemma DoubleProduct(a: nat, b: nat)
    ensures (2 * a) * b == 2 * (a * b)
  {
  }

  lemma {:induction false} Pow2Mono(a: nat, b: nat)
    requires a <= b
    ensures Pow2(a) <= Pow2(b)
  {
    if a < b {
      Pow2Mono(a, b - 1);
    }
  }

  lemma Pow2Constants()
    ensures Pow2(8) == 0x100
    ensures Pow2(16) == 0x1_0000
    ensures Pow2(24) == 0x100_0000
    ensures Pow2(32) == 0x1_0000_0000
    ensures Pow2(64) == 0x1_0000_0000_0000_0000
  {
    assert Pow2(4) == 16;
    Pow2Add(4, 4);
    Pow2Add(8, 8);
    Pow2Add(16, 8);
    Pow2Add(16, 16);
    Pow2Add(32, 32);
  }

  // ---- Shifting right and the bits shifted out -------------------------------------------------------

  /** `x >> k`, one halving at a time. */
  function Shr(x: nat, k: nat): (r: nat)
    ensures r <= x
  {
    if k == 0 then x else Shr(x / 2, k - 1)
  }

  /** The low k bits of x. */
  function Low(x: nat, k: nat): (r: nat)
    ensures r < Pow2(k) && r <= x
  {
    if k == 0 then 0 else 2 * Low(x / 2, k - 1) + x % 2
  }

  lemma {:induction false} ShrLow(x: nat, k: nat)
    ensures x == Shr(x, k) * Pow2(k) + Low(x, k)
    decreases k
  {
    if k != 0 {
      ShrLow(x / 2, k - 1);
      HalfStep(x, x / 2, Shr(x, k), Pow2(k - 1), Pow2(k), Low(x / 2, k - 1), Low(x, k));
    }
  }

  lemma HalfStep(x: nat, h: nat, q: nat, p: nat, p': nat, l: nat, l': nat)
    requires h == q * p + l && p' == 2 * p && l' - x == 2 * (l - h)
    ensures x == q * p' + l'
  {
  }

  lemma ShrIsDiv(x: nat, k: nat)
    ensures Shr(x, k) == x / Pow2(k) && Low(x, k) == x % Pow2(k)
  {
    ShrLow(x, k);
    DivModUnique(x, Pow2(k), Shr(x, k), Low(x, k));
  }

  lemma ShrBound(x: nat, j: nat, k: nat)
    requires x < Pow2(j + k)
    ensures Shr(x, k) < Pow2(j)
  {
    ShrLow(x, k);
    Pow2Add(j, k);
    if Pow2(j) <= Shr(x, k) {
      MulMono(Pow2(j), Shr(x, k), Pow2(k));
      assert false;
    }
  }

  // ---- Bit length ----------------------------------------------------------------------------------

  /** Least number of bits that represent `v`; zero needs none. */
  function BitLen(v: nat): (k: nat)
  {
    if v == 0 then 0 else 1 + BitLen(v / 2)
  }

  lemma {:induction false} BitLenBounds(v: nat)
    ensures v < Pow2(BitLen(v))
    ensures v > 0 ==> BitLen(v) > 0 && Pow2(BitLen(v) - 1) <= v
  {
    if v > 1 {
      BitLenBounds(v / 2);
    } else if v == 1 {
      assert BitLen(1) == 1 + BitLen(0) == 1;
    }
  }

  lemma BitLenUnique(v: nat, k: nat)
    requires k > 0
    requires Pow2(k - 1) <= v < Pow2(k)
    ensures BitLen(v) == k
  {
    BitLenBounds(v);
    var m := BitLen(v);
    if m < k {
      Pow2Mono(m, k - 1);
      assert false;
    } else if k < m {
      Pow2Mono(k, m - 1);
      assert false;
    }
  }

  lemma {:induction false} BitLenAtMost(v: nat, k: nat)
    requires v < Pow2(k)
    ensures BitLen(v) <= k
  {
    if v != 0 {
      BitLenAtMost(v / 2, k - 1);
    }
  }

  // ---- Bitwise OR ----------------------------------------------------------------------------------

  /** Bitwise OR on unbounded naturals. */
  function Or(a: nat, b: nat): (c: nat)
    ensures c == 0 <==> a == 0 && b == 0
    decreases a + b
  {
    if a == 0 then b
    else if b == 0 then a
    else 2 * Or(a / 2, b / 2) + (if a % 2 == 1 || b % 2 == 1 then 1 else 0)
  }

  /** OR of operands with disjoint bits is addition: one is a multiple of 2^k, the other lies below it. */
  lemma {:induction false} OrDisjoint(a: nat, b: nat, k: nat)
    requires b < Pow2(k)
    ensures Or(a * Pow2(k), b) == a * Pow2(k) + b
    ensures Or(b, a * Pow2(k)) == a * Pow2(k) + b
    decreases k
  {
    if k > 0 {
      OrDisjoint(a, b / 2, k - 1);
      DoubleProduct(Pow2(k - 1), a);
    }
  }

  /** OR keeps an all-ones bound. */
  lemma {:induction false} OrBound(a: nat, b: nat, k: nat)
    requires a < Pow2(k) && b < Pow2(k)
    ensures Or(a, b) < Pow2(k)
    decreases k
  {
    if a != 0 && b != 0 {
      OrBound(a / 2, b / 2, k - 1);
    }
  }
}
