/** Decimal printing of `construct_uint!`. */
module UintDisplay {
  import opened Powers
  import opened Limbs
  import opened UintDiv

  function Pow10(k: nat): (p: nat)
    ensures p > 0
  {
    if k == 0 then 1 else 10 * Pow10(k - 1)
  }

  predicate IsDigit(c: char)
  {
    '0' <= c <= '9'
  }

  function DigitChar(d: nat): (c: char)
    requires d < 10
    ensures IsDigit(c) && (c as int - '0' as int) == d
  {
    '0' + d as char
  }

  predicate AllDigits(s: string)
  {
    forall i :: 0 <= i < |s| ==> IsDigit(s[i])
  }

  /** The number a digit string denotes, read left to right. */
  function Parse(s: string): (v: nat)
    requires AllDigits(s)
  {
    if |s| == 0 then 0 else 10 * Parse(s[..|s| - 1]) + (s[|s| - 1] as int - '0' as int)
  }

  /** No superfluous zero in front: the numeral of zero is "0", any other starts with a non-zero digit. */
  predicate Canonical(s: string)
  {
    AllDigits(s) && |s| > 0 && (s[0] != '0' || |s| == 1)
  }

  // ---- Facts about numerals ------------------------------------------------------------------------

  lemma {:induction false} ParsePrepend(c: char, s: string)
    requires IsDigit(c) && AllDigits(s)
    ensures AllDigits([c] + s) && Parse([c] + s) == (c as int - '0' as int) * Pow10(|s|) + Parse(s)
  {
    var t := [c] + s;
    if |s| == 0 {
      assert t == [c] && t[..0] == [];
    } else {
      ParsePrepend(c, s[..|s| - 1]);
      assert t[..|t| - 1] == [c] + s[..|s| - 1];
      TenfoldStep(c as int - '0' as int, Pow10(|s| - 1), Pow10(|s|));
    }
  }

  lemma TenfoldStep(d: nat, p: nat, p': nat)
    requires p' == 10 * p
    ensures d * p' == 10 * (d * p)
  {
  }

  /** Two digits in front, as the table look-ups write them. */
  lemma ParsePair(x: nat, s: string)
    requires x < 100 && AllDigits(s)
    ensures var t := [DigitChar(x / 10), DigitChar(x % 10)] + s;
            AllDigits(t) && Parse(t) == x * Pow10(|s|) + Parse(s)
  {
    var a, b := DigitChar(x / 10), DigitChar(x % 10);
    ParsePrepend(b, s);
    ParsePrepend(a, [b] + s);
    assert [a] + ([b] + s) == [a, b] + s;
    PairAlgebra(x / 10, x % 10, x, Pow10(|s|), Pow10(|s| + 1));
  }

  lemma PairAlgebra(h: nat, l: nat, x: nat, p: nat, p': nat)
    requires x == 10 * h + l && p' == 10 * p
    ensures h * p' + l * p == x * p
  {
  }

  lemma {:induction false} Pow10Mono(a: nat, b: nat)
    requires a <= b
    ensures Pow10(a) <= Pow10(b)
  {
    if a < b {
      Pow10Mono(a, b - 1);
    }
  }

  /** 64 bits never need more than 20 digits. */
  lemma {:induction false} DigitsSuffice(n: nat)
    ensures B(n) <= Pow10(20 * n)
  {
    if n != 0 {
      DigitsSuffice(n - 1);
      Pow10By20(20 * (n - 1));
    }
  }

  lemma Pow10By20(k: nat)
    ensures Pow10(k + 20) == 1_0000_0000_0000_0000_0000 * Pow10(k)
  {
    Pow10By5(k);
    Pow10By5(k + 5);
    Pow10By5(k + 10);
    Pow10By5(k + 15);
  }

  lemma Pow10By5(k: nat)
    ensures Pow10(k + 5) == 1_0000_0 * Pow10(k)
  {
    Pow10By4(k);
    assert Pow10(k + 5) == 10 * Pow10(k + 4);
  }

  lemma Pow10By4(k: nat)
    ensures Pow10(k + 4) == 1_0000 * Pow10(k)
  {
    assert Pow10(k + 1) == 10 * Pow10(k);
    assert Pow10(k + 2) == 10 * Pow10(k + 1);
    assert Pow10(k + 3) == 10 * Pow10(k + 2);
    assert Pow10(k + 4) == 10 * Pow10(k + 3);
  }

  /** A value with `n * 10^used` in it and `n >= 10^k` leaves room for more than `k` further digits. */
  lemma RoomLeft(v: nat, n: nat, used: nat, tail: nat, k: nat, len: nat)
    requires v == n * Pow10(used) + tail && v < Pow10(len) && Pow10(k) <= n
    ensures used + k < len
  {
    MulMono(Pow10(k), n, Pow10(used));
    Pow10Add(k, used);
    if len <= used + k {
      Pow10Mono(len, used + k);
      assert false;
    }
  }

  lemma {:induction false} Pow10Add(a: nat, b: nat)
    ensures Pow10(a + b) == Pow10(a) * Pow10(b)
  {
    if a != 0 {
      Pow10Add(a - 1, b);
      TenfoldStep(Pow10(b), Pow10(a - 1), Pow10(a));
    }
  }

  /** A canonical numeral is the only one of its value. */
  lemma {:induction false} CanonicalUnique(s: string, t: string)
    requires Canonical(s) && Canonical(t) && Parse(s) == Parse(t)
    ensures s == t
  {
    var s', t' := s[..|s| - 1], t[..|t| - 1];
    assert s == s' + [s[|s| - 1]] && t == t' + [t[|t| - 1]];
    if |s| > 1 && |t| > 1 {
      CanonicalUnique(s', t');
    } else if |s| > 1 {
      CanonicalPositive(s');
    } else if |t| > 1 {
      CanonicalPositive(t');
    }
  }

  lemma {:induction false} CanonicalPositive(s: string)
    requires AllDigits(s) && |s| > 0 && s[0] != '0'
    ensures Parse(s) > 0
  {
    if |s| > 1 {
      CanonicalPositive(s[..|s| - 1]);
    }
  }

  // ---- The printer ---------------------------------------------------------------------------------

  /** `DEC_DIGITS_LUT`: the two-digit numerals 00 to 99, concatenated. */
  function DecDigitsLut(): (t: string)
    ensures |t| == 200
  {
    seq(200, i requires 0 <= i < 200 => if i % 2 == 0 then DigitChar(i / 2 / 10) else DigitChar(i / 2 % 10))
  }

  /** `n >= x` against a u64: any limb above the first decides, otherwise the first limb does. */
  method AtLeastU64(a: seq<u64>, x: u64) returns (r: bool)
    requires |a| > 0
    ensures r <==> Val(a) >= x
  {
    var bigger := exists i :: 1 <= i < |a| && a[i] != 0;
    if bigger {
      ghost var i :| 1 <= i < |a| && a[i] != 0;
      assert a[1..][i - 1] == a[i];
      if Val(a[1..]) == 0 {
        ValZeroMeansZeros(a[1..]);
        assert false;
      }
    } else {
      ValZeros(a[1..]);
    }
    r := bigger || a[0] >= x;
  }

  lemma LutPair(x: nat)
    requires x < 100
    ensures DecDigitsLut()[2 * x] == DigitChar(x / 10) && DecDigitsLut()[2 * x + 1] == DigitChar(x % 10)
  {
  }

  /** The two characters of `x < 100`. */
  function Pair(x: nat): (t: string)
    requires x < 100
    ensures |t| == 2
  {
    [DigitChar(x / 10), DigitChar(x % 10)]
  }

  /** Copy the two digits of `x` from the table to `at`. */
  method PutPair(buf: array<char>, at: nat, x: nat)
    requires at + 2 <= buf.Length && x < 100
    modifies buf
    ensures buf[at..] == Pair(x) + old(buf[at + 2..])
  {
    ghost var tail := buf[at + 2..];
    LutPair(x);
    buf[at] := DecDigitsLut()[2 * x];
    buf[at + 1] := DecDigitsLut()[2 * x + 1];
    assert buf[at..] == [buf[at], buf[at + 1]] + buf[at + 2..];
    assert buf[at + 2..] == tail;
  }

  /** `n` is what remains to be printed in front of `tail`, all of it together denoting `v`. */
  ghost predicate Pending(v: nat, n: nat, tail: string)
  {
    AllDigits(tail) && v == n * Pow10(|tail|) + Parse(tail) && (n == 0 ==> v == 0 && tail == "")
  }

  /** Splitting two digits off the number left to print keeps the printed value. */
  lemma PairOff(v: nat, n: nat, tail: string)
    requires Pending(v, n, tail) && n >= 100
    ensures Pending(v, n / 100, Pair(n % 100) + tail)
  {
    var x := n % 100;
    ParsePair(x, tail);
    Pow10By2(|tail|);
    PairOffAlgebra(n, n / 100, x, Pow10(|tail|), Pow10(|tail| + 2), Parse(tail));
  }

  lemma Pow10By2(k: nat)
    ensures Pow10(k + 2) == 100 * Pow10(k)
  {
    assert Pow10(k + 2) == 10 * Pow10(k + 1);
  }

  lemma PairOffAlgebra(n: nat, h: nat, l: nat, p: nat, p2: nat, t: nat)
    requires n == 100 * h + l && p2 == 100 * p
    ensures h * p2 + (l * p + t) == n * p + t
  {
  }

  /** Printing what remains as one or two digits completes the canonical numeral. */
  lemma HeadOne(v: nat, n: nat, tail: string)
    requires Pending(v, n, tail) && n < 10
    ensures Canonical([DigitChar(n)] + tail) && Parse([DigitChar(n)] + tail) == v
  {
    ParsePrepend(DigitChar(n), tail);
  }

  lemma HeadTwo(v: nat, n: nat, tail: string)
    requires Pending(v, n, tail) && 10 <= n < 100
    ensures Canonical(Pair(n) + tail) && Parse(Pair(n) + tail) == v
  {
    ParsePair(n, tail);
  }

  /** The buffer has room for the digits of what is still pending, so the write index cannot underflow. */
  lemma Room(a: seq<u64>, n: nat, tail: string, k: nat)
    requires Pending(Val(a), n, tail) && Pow10(k) <= n
    ensures |tail| + k < 20 * |a|
  {
    ValBound(a);
    DigitsSuffice(|a|);
    RoomLeft(Val(a), n, |tail|, Parse(tail), k, 20 * |a|);
  }

  /** The loop of `fmt`: four digits at a time from the right, until less than 10000 is left. */
  method DisplayChunks(a: seq<u64>, buf: array<char>) returns (n: nat, curr: nat)
    requires |a| > 0 && buf.Length == 20 * |a|
    modifies buf
    ensures curr <= buf.Length && n < 10000 && Pending(Val(a), n, buf[curr..])
  {
    var m := a;
    curr := buf.Length;
    assert buf[curr..] == [];
    var more := AtLeastU64(m, 10000);
    while more
      invariant |m| == |a| && curr <= buf.Length
      invariant Pending(Val(a), Val(m), buf[curr..])
      invariant more <==> Val(m) >= 10000
      decreases Val(m)
    {
      ghost var tail, n0 := buf[curr..], Val(m);
      Pow10By4(0);
      Room(a, n0, tail, 4);
      var rem;
      m, rem := DivRemU64(m, 10000);
      FourOff(Val(a), n0, tail, rem);
      curr := curr - 4;
      PutPair(buf, curr + 2, rem % 100);
      PutPair(buf, curr, rem / 100);
      more := AtLeastU64(m, 10000);
    }
    n := m[0];
    ValWord(m);
  }

  lemma FourOff(v: nat, n: nat, tail: string, rem: nat)
    requires Pending(v, n, tail) && n >= 10000 && rem == n % 10000
    ensures Pending(v, n / 10000, Pair(rem / 100) + (Pair(rem % 100) + tail))
  {
    PairOff(v, n, tail);
    PairOff(v, n / 100, Pair(n % 100) + tail);
    assert n / 100 / 100 == n / 10000 && n / 100 % 100 == rem / 100 && n % 100 == rem % 100;
  }

  /** Two of the last one to four digits, if there are more than two. */
  method DisplayPair(a: seq<u64>, buf: array<char>, n0: nat, curr0: nat) returns (n: nat, curr: nat)
    requires |a| > 0 && buf.Length == 20 * |a|
    requires curr0 <= buf.Length && n0 < 10000 && Pending(Val(a), n0, buf[curr0..])
    modifies buf
    ensures curr <= buf.Length && n < 100 && Pending(Val(a), n, buf[curr..])
  {
    n, curr := n0, curr0;
    if n >= 100 {
      Pow10By2(0);
      Room(a, n, buf[curr..], 2);
      PairOff(Val(a), n, buf[curr..]);
      curr := curr - 2;
      PutPair(buf, curr, n % 100);
      n := n / 100;
    }
  }

  /** The last one or two digits. */
  method DisplayHead(a: seq<u64>, buf: array<char>, n: nat, curr0: nat) returns (s: string)
    requires |a| > 0 && buf.Length == 20 * |a|
    requires curr0 <= buf.Length && n < 100 && Pending(Val(a), n, buf[curr0..])
    modifies buf
    ensures Canonical(s) && Parse(s) == Val(a)
  {
    var curr := curr0;
    ghost var tail := buf[curr..];
    if n < 10 {
      HeadOne(Val(a), n, tail);
      if n > 0 {
        Room(a, n, tail, 0);
      }
      curr := curr - 1;
      buf[curr] := DigitChar(n);
      assert buf[curr + 1..] == tail;
      assert buf[curr..] == [DigitChar(n)] + tail;
    } else {
      HeadTwo(Val(a), n, tail);
      assert Pow10(1) == 10;
      Room(a, n, tail, 1);
      curr := curr - 2;
      PutPair(buf, curr, n);
    }
    s := buf[curr..];
  }

  /** `Display::fmt` without padding: the decimal numeral of the value. */
  method Display(a: seq<u64>) returns (s: string)
    requires |a| > 0
    ensures Canonical(s) && Parse(s) == Val(a)
  {
    var buf := new char[20 * |a|];
    var n, curr := DisplayChunks(a, buf);
    n, curr := DisplayPair(a, buf, n, curr);
    s := DisplayHead(a, buf, n, curr);
  }
}
