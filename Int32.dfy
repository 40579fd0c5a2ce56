/** JavaScript's 32-bit integer operators, on integer operands: the operand
    conversion ToInt32 (section 7.1.6 of ECMA-262), the bitwise AND `&` and
    the sign-propagating right shift `>>` (section 13.12 and 13.9.2 of ECMA-262).
    A bit pattern is a natural number below 2^32; bit i of x is (x / 2^i) % 2. */
module Int32 {

  const TwoTo32: int := 0x1_0000_0000
  const TwoTo31: int := 0x8000_0000

  predicate IsInt32(v: int)
  {
    -TwoTo31 <= v < TwoTo31
  }

  function Pow2(k: nat): (p: nat)
    ensures p >= 1
  {
    if k == 0 then 1 else 2 * Pow2(k - 1)
  }

  /** The powers of two the modelled code uses. */
  lemma Pow2Values()
    ensures Pow2(8) == 256 && Pow2(16) == 65536
    ensures Pow2(30) == 0x4000_0000 && Pow2(31) == TwoTo31 && Pow2(32) == TwoTo32
  {
    assert Pow2(4) == 16;
    assert Pow2(8) == 256;
    assert Pow2(12) == 4096;
    assert Pow2(16) == 65536;
    assert Pow2(20) == 0x10_0000;
    assert Pow2(24) == 0x100_0000;
    assert Pow2(28) == 0x1000_0000;
  }

  /** The 32-bit pattern of an integer: its value modulo 2^32 (ToUint32). */
  function Bits32(v: int): (x: nat)
    ensures x < TwoTo32
  {
    v % TwoTo32
  }

  /** ToInt32: the integer whose two's complement pattern is Bits32(v). */
  function ToInt32(v: int): (r: int)
    ensures IsInt32(r)
    ensures Bits32(r) == Bits32(v)
  {
    var x := Bits32(v);
    if x < TwoTo31 then x else x - TwoTo32
  }

  /** The low n bits of the bitwise AND of a and b. */
  function AndBits(a: nat, b: nat, n: nat): nat
  {
    if n == 0 then 0
    else 2 * AndBits(a / 2, b / 2, n - 1) + (if a % 2 == 1 && b % 2 == 1 then 1 else 0)
  }

  /** JavaScript's a & b. */
  function BitAnd(a: int, b: int): int
  {
    ToInt32(AndBits(Bits32(a), Bits32(b), 32))
  }

  /** a & b computed from the patterns of its operands. */
  lemma BitAndOfPatterns(a: int, b: int, x: nat, y: nat)
    requires x == Bits32(a) && y == Bits32(b)
    ensures BitAnd(a, b) == ToInt32(AndBits(x, y, 32))
  {
  }

  /** JavaScript's a >> s for 0 <= s < 32: ToInt32(a) shifted right with sign extension. */
  function ShiftRight(a: int, s: nat): int
    requires s < 32
  {
    ToInt32(a) / Pow2(s)
  }

  lemma {:induction false} AndBitsBound(a: nat, b: nat, n: nat)
    ensures AndBits(a, b, n) < Pow2(n)
  {
    if n > 0 {
      AndBitsBound(a / 2, b / 2, n - 1);
    }
  }

  /** Quotient and remainder are determined by any decomposition x == d * q + s with 0 <= s < d. */
  lemma DivModUnique(x: int, d: int, q: int, s: int)
    requires d > 0 && x == d * q + s && 0 <= s < d
    ensures x / d == q && x % d == s
  {
    var t := q - x / d;
    assert d * t == x % d - s;
  }

  /** Splitting off the lowest bit: x mod 2m is twice (x/2) mod m plus x's low bit. */
  lemma ModDouble(x: nat, m: nat)
    requires m > 0
    ensures x % (2 * m) == 2 * ((x / 2) % m) + x % 2
  {
    var q, r0 := x / 2, x % 2;
    var q2, r1 := q / m, q % m;
    assert x == 2 * q + r0;
    assert q == m * q2 + r1;
    assert x == (2 * m) * q2 + (2 * r1 + r0);
    DivModUnique(x, 2 * m, q2, 2 * r1 + r0);
  }

  /** AND with the mask 2^k - 1 keeps the low k bits. */
  lemma {:induction false} AndLowMask(x: nat, k: nat, n: nat)
    requires k <= n
    ensures AndBits(x, Pow2(k) - 1, n) == x % Pow2(k)
  {
    if k == 0 {
      AndZero(x, n);
    } else {
      var m := Pow2(k - 1);
      var mask := 2 * m - 1;
      assert Pow2(k) - 1 == mask;
      assert mask % 2 == 1 && mask / 2 == m - 1;
      var rest := AndBits(x / 2, m - 1, n - 1);
      assert AndBits(x, mask, n) == 2 * rest + x % 2;
      AndLowMask(x / 2, k - 1, n - 1);
      assert rest == (x / 2) % m;
      ModDouble(x, m);
    }
  }

  lemma {:induction false} AndZero(x: nat, n: nat)
    ensures AndBits(x, 0, n) == 0
  {
    if n > 0 {
      AndZero(x / 2, n - 1);
    }
  }

  /** AND of a pattern with itself keeps its low n bits. */
  lemma {:induction false} AndSelf(x: nat, n: nat)
    ensures AndBits(x, x, n) == x % Pow2(n)
  {
    if n > 0 {
      AndSelf(x / 2, n - 1);
      ModDouble(x, Pow2(n - 1));
    }
  }

  lemma {:induction false} Pow2Even(k: nat)
    requires k > 0
    ensures Pow2(k) % 2 == 0 && Pow2(k) / 2 == Pow2(k - 1)
  {
  }

  lemma {:induction false} Pow2Monotone(j: nat, k: nat)
    requires j < k
    ensures Pow2(j) < Pow2(k)
  {
    if j < k - 1 {
      Pow2Monotone(j, k - 1);
    }
  }

  /** An odd x: x & (x - 1) is x without its low bit, zero exactly when x is 1 == 2^0. */
  lemma AndPredecessorOdd(x: nat, n: nat)
    requires 0 < x < Pow2(n) && x % 2 == 1
    ensures AndBits(x, x - 1, n) == 0 <==> exists k :: 0 <= k < n && x == Pow2(k)
  {
    assert n > 0;
    var half, m := x / 2, Pow2(n - 1);
    assert Pow2(n) == 2 * m && half < m;
    assert (x - 1) / 2 == half && (x - 1) % 2 == 0;
    var rest := AndBits(half, half, n - 1);
    assert AndBits(x, x - 1, n) == 2 * rest;
    AndSelf(half, n - 1);
    DivModUnique(half, m, 0, half);
    assert rest == half;
    if half == 0 {
      assert x == Pow2(0);
    }
    forall k | 0 <= k < n && x == Pow2(k) ensures half == 0 {
      if k > 0 {
        Pow2Even(k);
      }
    }
  }

  /** An even x: x & (x - 1) is twice (x/2) & (x/2 - 1), and x is a power of
      two exactly when x/2 is one. */
  lemma AndPredecessorEven(x: nat, n: nat)
    requires 0 < x < Pow2(n) && x % 2 == 0
    requires n > 0 && 0 < x / 2 < Pow2(n - 1)
    requires AndBits(x / 2, x / 2 - 1, n - 1) == 0 <==> exists k :: 0 <= k < n - 1 && x / 2 == Pow2(k)
    ensures AndBits(x, x - 1, n) == 0 <==> exists k :: 0 <= k < n && x == Pow2(k)
  {
    var half := x / 2;
    assert (x - 1) % 2 == 1 && (x - 1) / 2 == half - 1;
    var rest := AndBits(half, half - 1, n - 1);
    assert AndBits(x, x - 1, n) == 2 * rest;
    if rest == 0 {
      var k :| 0 <= k < n - 1 && half == Pow2(k);
      assert x == Pow2(k + 1);
    }
    forall k | 0 <= k < n && x == Pow2(k) ensures rest == 0 {
      assert k > 0;
      Pow2Even(k);
      assert 0 <= k - 1 < n - 1 && half == Pow2(k - 1);
    }
  }

  /** The bit trick: for a nonzero n-bit pattern x, x & (x - 1) clears only
      the lowest set bit, so it is zero exactly when x is a power of two. */
  lemma {:induction false} AndPredecessor(x: nat, n: nat)
    requires 0 < x < Pow2(n)
    ensures AndBits(x, x - 1, n) == 0 <==> exists k :: 0 <= k < n && x == Pow2(k)
  {
    assert n > 0;
    var half, m := x / 2, Pow2(n - 1);
    assert Pow2(n) == 2 * m;
    assert half < m;
    if x % 2 == 1 {
      AndPredecessorOdd(x, n);
    } else {
      AndPredecessor(half, n - 1);
      AndPredecessorEven(x, n);
    }
  }
}
