/**
 Numbers written with digits in a base from 2 to 36, and their value: the
 reference both for the printer and for the parser.
 */
module Numerals {

  const MAX64: nat := 0xFFFF_FFFF_FFFF_FFFF

  predicate IsBase(b: nat) {
    2 <= b <= 36
  }

  /** The value of a digit or letter; 36 for every other character. */
  function DigitValue(c: char): (d: nat)
    ensures d <= 36
  {
    if '0' <= c <= '9' then (c - '0') as nat
    else if 'a' <= c <= 'z' then (c - 'a') as nat + 10
    else if 'A' <= c <= 'Z' then (c - 'A') as nat + 10
    else 36
  }

  function DigitChar(d: nat, upper: bool): (c: char)
    requires d < 36
    ensures DigitValue(c) == d
  {
    if d < 10 then '0' + d as char
    else if upper then 'A' + (d - 10) as char
    else 'a' + (d - 10) as char
  }

  /** 0 to 9, then the letters in order, in either case; what is written has the case asked for. */
  lemma {:induction false} DigitCharacters(c: char, d: nat, upper: bool)
    requires d < 36
    ensures DigitValue('0') == 0 && DigitValue('9') == 9 && DigitValue('a') == DigitValue('A') == 10
    ensures '0' < c <= '9' || 'a' < c <= 'z' || 'A' < c <= 'Z' ==> DigitValue(c) == DigitValue(c - 1 as char) + 1
    ensures DigitValue(c) < 36 <==> '0' <= c <= '9' || 'a' <= c <= 'z' || 'A' <= c <= 'Z'
    ensures var w := DigitChar(d, upper);
            if d < 10 then '0' <= w <= '9' else if upper then 'A' <= w <= 'Z' else 'a' <= w <= 'z'
  {
  }

  /** The positional value of s[lo..hi]. */
  function Value(s: seq<char>, lo: nat, hi: nat, base: nat): nat
    requires lo <= hi <= |s|
  {
    if lo == hi then 0 else Value(s, lo, hi - 1, base) * base + DigitValue(s[hi - 1])
  }

  ghost predicate AllDigits(s: seq<char>, lo: nat, hi: nat, base: nat)
    requires lo <= hi <= |s|
  {
    forall k :: lo <= k < hi ==> DigitValue(s[k]) < base
  }

  /** The character at i of a C string; the terminator behind the last one. */
  function At(s: seq<char>, i: nat): char
    requires i <= |s|
  {
    if i < |s| then s[i] else '\0'
  }

  /** The end of the longest run of digits below base. */
  function RunEnd(s: seq<char>, i: nat, base: nat): (r: nat)
    requires i <= |s| && IsBase(base)
    ensures i <= r <= |s| && AllDigits(s, i, r, base) && DigitValue(At(s, r)) >= base
    decreases |s| - i
  {
    if DigitValue(At(s, i)) < base then RunEnd(s, i + 1, base) else i
  }

  /** The end of the run is determined by what it means. */
  lemma {:induction false} RunEndUnique(s: seq<char>, i: nat, base: nat, r: nat)
    requires IsBase(base) && i <= r <= |s| && AllDigits(s, i, r, base) && DigitValue(At(s, r)) >= base
    ensures RunEnd(s, i, base) == r
    decreases r - i
  {
    if i < r { RunEndUnique(s, i + 1, base, r); }
  }

  /** The last digit of v. */
  function LowDigit(v: nat, base: nat, upper: bool): char
    requires IsBase(base)
  {
    QuotientSmaller(v, base);
    DigitChar(v % base, upper)
  }

  /** The digits before the last, as a number. */
  function Rest(v: nat, base: nat): (r: nat)
    requires IsBase(base)
    ensures v > 0 ==> r < v
  {
    QuotientSmaller(v, base);
    v / base
  }

  /** The digits of v, most significant first. */
  function Digits(v: nat, base: nat, upper: bool): (s: seq<char>)
    requires IsBase(base)
    ensures |s| > 0
    decreases v
  {
    if v < base then [LowDigit(v, base, upper)] else Digits(Rest(v, base), base, upper) + [LowDigit(v, base, upper)]
  }

  lemma {:induction false} QuotientSmaller(v: nat, base: nat)
    requires 2 <= base
    ensures base <= v ==> 0 < v / base < v
    ensures v < base ==> v / base == 0 && v % base == v
    ensures v == (v / base) * base + v % base && v % base < base
  {
  }

  lemma {:induction false} ValueIgnoresRest(s: seq<char>, t: seq<char>, lo: nat, hi: nat, base: nat)
    requires lo <= hi <= |s| && hi <= |t| && forall k :: lo <= k < hi ==> s[k] == t[k]
    ensures Value(s, lo, hi, base) == Value(t, lo, hi, base)
    decreases hi
  {
    if lo < hi { ValueIgnoresRest(s, t, lo, hi - 1, base); }
  }

  /** Reading the digits of v gives v back. */
  lemma {:induction false} DigitsValue(v: nat, base: nat, upper: bool)
    requires IsBase(base)
    ensures var s := Digits(v, base, upper); AllDigits(s, 0, |s|, base) && Value(s, 0, |s|, base) == v
    decreases v
  {
    QuotientSmaller(v, base);
    var s := Digits(v, base, upper);
    if v < base {
      assert Value(s, 0, 0, base) == 0;
    } else {
      var t := Digits(v / base, base, upper);
      DigitsValue(v / base, base, upper);
      ValueIgnoresRest(s, t, 0, |t|, base);
    }
  }

  // --------------------------------------------------------- numbers of digits

  function Pow(base: nat, n: nat): nat {
    if n == 0 then 1 else Pow(base, n - 1) * base
  }

  /** n digits suffice exactly for the numbers below base^n. */
  lemma {:induction false} DigitCount(v: nat, base: nat, upper: bool, n: nat)
    requires IsBase(base) && 0 < n
    ensures |Digits(v, base, upper)| <= n <==> v < Pow(base, n)
    decreases n
  {
    QuotientSmaller(v, base);
    if n == 1 {
      assert Pow(base, 1) == Pow(base, 0) * base == base;
    } else {
      var p := Pow(base, n - 1);
      PowPositive(base, n - 2);
      ScaledLess(v / base, v % base, p, base);
      if v < base {
        assert base <= p by { AtLeastBase(Pow(base, n - 2), base); }
        AtLeastBase(p, base);
      } else {
        DigitCount(v / base, base, upper, n - 1);
      }
    }
  }

  lemma {:induction false} PowPositive(base: nat, n: nat)
    requires 0 < base
    ensures 0 < Pow(base, n)
  {
    if n > 0 {
      PowPositive(base, n - 1);
      AtLeastBase(Pow(base, n - 1), base);
    }
  }

  lemma {:induction false} AtLeastBase(p: nat, base: nat)
    requires 0 < p
    ensures base <= p * base
  {
  }

  lemma {:induction false} ScaledLess(q: nat, r: nat, p: nat, base: nat)
    requires r < base
    ensures q * base + r < p * base <==> q < p
  {
    if q < p {
      assert (q + 1) * base <= p * base;
    } else {
      assert p * base <= q * base;
    }
  }

  /** With base 4 or more, 32 digits suffice for every 64-bit number. */
  lemma {:induction false} WordFits(v: nat, base: nat, upper: bool)
    requires 4 <= base <= 36 && v <= MAX64
    ensures |Digits(v, base, upper)| <= 32
  {
    PowMonotone(4, base, 32);
    Pow4();
    DigitCount(v, base, upper, 32);
  }

  lemma {:induction false} PowMonotone(a: nat, b: nat, n: nat)
    requires a <= b
    ensures Pow(a, n) <= Pow(b, n)
  {
    if n > 0 {
      PowMonotone(a, b, n - 1);
      ProductMonotone(Pow(a, n - 1), Pow(b, n - 1), a, b);
    }
  }

  lemma {:induction false} ProductMonotone(x: nat, y: nat, a: nat, b: nat)
    requires x <= y && a <= b
    ensures x * a <= y * b
  {
    assert x * a <= y * a;
    assert a * y <= b * y;
  }

  lemma {:induction false} Pow4()
    ensures Pow(4, 32) == MAX64 + 1
  {
    assert Pow(4, 0) == 1;
    FourMore(0);
    FourMore(4);
    FourMore(8);
    FourMore(12);
    FourMore(16);
    FourMore(20);
    FourMore(24);
    FourMore(28);
  }

  lemma {:induction false} FourMore(n: nat)
    ensures Pow(4, n + 4) == 256 * Pow(4, n)
  {
    assert Pow(4, n + 2) == 16 * Pow(4, n) by { assert Pow(4, n + 1) == 4 * Pow(4, n); }
    assert Pow(4, n + 3) == 4 * Pow(4, n + 2);
  }
}
