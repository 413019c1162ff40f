/**
 Powers of two, binary logarithm and bitwise exclusive-or on naturals: the
 arithmetic behind the POW2, ILOG2, `>>` and `^` of the kernel's allocators.
 */
module PowersOfTwo {

  function Pow2(n: nat): (r: nat)
    ensures r > 0
  {
    if n == 0 then 1 else 2 * Pow2(n - 1)
  }

  /** ILOG2: the position of the highest set bit. */
  function ILog2(v: nat): (r: nat)
    requires v > 0
    ensures Pow2(r) <= v < Pow2(r + 1)
  {
    if v == 1 then 0 else 1 + ILog2(v / 2)
  }

  predicate IsPow2(v: nat) {
    v > 0 && v == Pow2(ILog2(v))
  }

  /** 64 - clzl(x): the number of bits needed to write x. */
  function BitLength(x: nat): nat {
    if x == 0 then 0 else ILog2(x) + 1
  }

  /** C's unsigned `x >> s`. */
  function ShiftRight(x: nat, s: nat): nat
    decreases s
  {
    if s == 0 then x else ShiftRight(x / 2, s - 1)
  }

  /** `x << s` without a word size. */
  function ShiftLeft(x: nat, s: nat): nat {
    if s == 0 then x else 2 * ShiftLeft(x, s - 1)
  }

  /** Bitwise exclusive-or. */
  function BitXor(a: nat, b: nat): (r: nat)
    decreases a + b
  {
    if a == 0 && b == 0 then 0
    else (if a % 2 == b % 2 then 0 else 1) + 2 * BitXor(a / 2, b / 2)
  }

  lemma {:induction false} Pow2Add(a: nat, b: nat)
    ensures Pow2(a + b) == Pow2(a) * Pow2(b)
  {
    if a > 0 {
      Pow2Add(a - 1, b);
      assert Pow2(a + b) == 2 * Pow2((a - 1) + b);
      assert Pow2(a) * Pow2(b) == 2 * (Pow2(a - 1) * Pow2(b));
    }
  }

  lemma {:induction false} Pow2Monotone(a: nat, b: nat)
    requires a <= b
    ensures Pow2(a) <= Pow2(b)
  {
    if a < b {
      Pow2Monotone(a, b - 1);
    }
  }

  lemma {:induction false} ILog2OfPow2(e: nat)
    ensures ILog2(Pow2(e)) == e
  {
    if e > 0 {
      ILog2OfPow2(e - 1);
      assert Pow2(e) / 2 == Pow2(e - 1);
      assert Pow2(e) != 1;
    }
  }

  lemma {:induction false} ILog2Monotone(a: nat, b: nat)
    requires 0 < a <= b
    ensures ILog2(a) <= ILog2(b)
  {
    if ILog2(b) < ILog2(a) { Pow2Monotone(ILog2(b) + 1, ILog2(a)); }
  }

  lemma {:induction false} MulGap(a: int, b: int, d: nat)
    requires a < b
    ensures a * d + d <= b * d
    decreases b - a
  {
    if a + 1 < b { MulGap(a, b - 1, d); }
    Distribute(b - 1, 1, d);
  }

  lemma {:induction false} Distribute(a: int, b: int, d: int)
    ensures (a + b) * d == a * d + b * d
  {
  }

  lemma {:induction false} MulAssociative(a: int, b: int, c: int)
    ensures a * (b * c) == a * b * c
  {
  }

  lemma {:induction false} DivMod(x: nat, d: nat) returns (q: nat, r: nat)
    requires d > 0
    ensures q == x / d && r == x % d && r < d && x == q * d + r
  {
    q, r := x / d, x % d;
  }

  /** Quotient and remainder are determined by x == q * d + r. */
  lemma {:induction false} DivModUnique(x: nat, q: nat, r: nat, d: nat)
    requires d > 0 && r < d && x == q * d + r
    ensures x / d == q && x % d == r
  {
    var e := x / d;
    if e < q {
      MulGap(e, q, d);
    } else if q < e {
      MulGap(q, e, d);
    }
  }

  lemma {:induction false} DivOfMultiple(k: nat, d: nat)
    requires d > 0
    ensures (k * d) / d == k && (k * d) % d == 0
  {
    DivModUnique(k * d, k, 0, d);
  }

  // ------------------------------------------------------------------- shifts

  lemma {:induction false} ShiftLeftProduct(x: nat, s: nat)
    ensures ShiftLeft(x, s) == x * Pow2(s)
  {
    if s > 0 {
      ShiftLeftProduct(x, s - 1);
      DoubleProduct(x, Pow2(s - 1));
    }
  }

  lemma {:induction false} DoubleProduct(a: nat, p: nat)
    ensures a * (2 * p) == 2 * (a * p)
  {
  }

  lemma {:induction false} ShiftLeftOne(s: nat)
    ensures ShiftLeft(1, s) == Pow2(s)
  {
    if s > 0 { ShiftLeftOne(s - 1); }
  }

  lemma {:induction false} ShiftLeftZero(s: nat)
    ensures ShiftLeft(0, s) == 0
  {
    if s > 0 { ShiftLeftZero(s - 1); }
  }

  lemma {:induction false} ShiftLeftAdd(x: nat, y: nat, s: nat)
    ensures ShiftLeft(x + y, s) == ShiftLeft(x, s) + ShiftLeft(y, s)
  {
    if s > 0 { ShiftLeftAdd(x, y, s - 1); }
  }

  lemma {:induction false} ShiftLeftTwice(x: nat, s: nat, r: nat)
    ensures ShiftLeft(ShiftLeft(x, s), r) == ShiftLeft(x, s + r)
  {
    if r > 0 { ShiftLeftTwice(x, s, r - 1); }
  }

  lemma {:induction false} ShiftLeftMonotone(x: nat, y: nat, s: nat)
    requires x < y
    ensures ShiftLeft(x, s) + Pow2(s) <= ShiftLeft(y, s)
  {
    if s > 0 { ShiftLeftMonotone(x, y, s - 1); }
  }

  /** Doubling before or after the shift. */
  lemma {:induction false} ShiftLeftDouble(x: nat, s: nat)
    ensures ShiftLeft(2 * x, s) == ShiftLeft(x, s + 1)
  {
    if s > 0 { ShiftLeftDouble(x, s - 1); }
  }

  /** Shifting right undoes shifting left. */
  lemma {:induction false} ShiftRoundTrip(x: nat, s: nat)
    ensures ShiftRight(ShiftLeft(x, s), s) == x
  {
    if s > 0 { ShiftRoundTrip(x, s - 1); }
  }

  /** `p >> s` is the block of length 2^s that contains p. */
  lemma {:induction false} ShiftRightBlock(p: nat, s: nat, k: nat)
    ensures ShiftLeft(k, s) <= p < ShiftLeft(k + 1, s) <==> k == ShiftRight(p, s)
    decreases s
  {
    if s > 0 { ShiftRightBlock(p / 2, s - 1, k); }
  }

  lemma {:induction false} ShiftRightHalf(p: nat, s: nat)
    ensures ShiftRight(p, s + 1) == ShiftRight(p, s) / 2
    decreases s
  {
    if s > 0 { ShiftRightHalf(p / 2, s - 1); }
  }

  lemma {:induction false} ShiftRightBound(p: nat, s: nat, e: nat)
    requires p < Pow2(s + e)
    ensures ShiftRight(p, s) < Pow2(e)
    decreases s
  {
    if s > 0 { ShiftRightBound(p / 2, s - 1, e); }
  }

  /** Removing a multiple of 2^s before the shift removes it after the shift. */
  lemma {:induction false} ShiftRightMinus(p: nat, s: nat, e: nat)
    requires Pow2(s + e) <= p
    ensures ShiftRight(p, s) == Pow2(e) + ShiftRight(p - Pow2(s + e), s)
    decreases s
  {
    if s > 0 {
      assert (p - Pow2(s + e)) / 2 == p / 2 - Pow2(s + e - 1);
      ShiftRightMinus(p / 2, s - 1, e);
    }
  }

  lemma {:induction false} ShiftPow2(e: nat, s: nat)
    requires s <= e
    ensures ShiftRight(Pow2(e), s) == Pow2(e - s)
  {
    if s > 0 {
      assert Pow2(e) / 2 == Pow2(e - 1);
      ShiftPow2(e - 1, s - 1);
    }
  }

  lemma {:induction false} ShiftLeftBound(k: nat, e: nat, s: nat)
    requires k < Pow2(e)
    ensures ShiftLeft(k, s) + Pow2(s) <= Pow2(e + s)
  {
    if s > 0 { ShiftLeftBound(k, e, s - 1); }
  }

  /** Dividing by 2^g is shifting g places less to the left. */
  lemma {:induction false} ShiftLeftDivide(k: nat, s: nat, g: nat)
    ensures ShiftLeft(k, s + g) / Pow2(g) == ShiftLeft(k, s)
  {
    ShiftLeftTwice(k, s, g);
    ShiftLeftProduct(ShiftLeft(k, s), g);
    DivOfMultiple(ShiftLeft(k, s), Pow2(g));
  }

  // ---------------------------------------------------------------------- xor

  lemma {:induction false} XorZero(a: nat)
    ensures BitXor(a, 0) == a
  {
    if a > 0 { XorZero(a / 2); }
  }

  lemma {:induction false} XorDouble(a: nat, b: nat)
    ensures BitXor(2 * a, 2 * b) == 2 * BitXor(a, b)
  {
  }

  /** Flipping bit m of a multiple of 2^m moves to the neighbouring multiple. */
  lemma {:induction false} XorBuddy(k: nat, m: nat)
    ensures BitXor(ShiftLeft(k, m), Pow2(m)) == ShiftLeft(if k % 2 == 0 then k + 1 else k - 1, m)
  {
    if m == 0 {
      XorZero(k / 2);
    } else {
      XorBuddy(k, m - 1);
      XorDouble(ShiftLeft(k, m - 1), Pow2(m - 1));
    }
  }
}
