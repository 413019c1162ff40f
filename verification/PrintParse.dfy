/** strtoull undoes what the integer conversions of vsnprintf print. */
module PrintParse {
  import opened Numerals
  import opened FormatText
  import opened Options
  import D = FormatStandard
  import S = Strtoull
  import PowersOfTwo

  /** No flag that changes the digits or pads them; length flags do not matter. */
  predicate Plain(f: Flags) {
    !f.zero && !f.left && !f.plus && !f.space && !f.hash && !f.upper && !f.precise
  }

  /** Without flags, width and precision a number is printed as its digits, as long as the buffer holds them. */
  lemma {:induction false} PlainNumber(v: nat, base: nat, f: Flags)
    requires IsBase(base) && Plain(f)
    ensures NumberText(v, false, base, 0, 0, f) == DigitText(v, base, f)
    ensures v < Pow(base, 32) ==> DigitText(v, base, f) == Digits(v, base, false)
  {
    var d := DigitText(v, base, f);
    assert ZeroFilled(d, 0) == d;
    assert Padded(d, 0, false) == d;
    DigitCount(v, base, false, 32);
  }

  /** Every 64-bit value printed in base 8, 10 or 16 (in fact any base from 4 on) is read back, up to the terminator. */
  lemma {:induction false} PrintThenParse(v: nat, base: nat, f: Flags)
    requires v <= MAX64 && 4 <= base <= 36 && Plain(f)
    ensures var s := NumberText(v, false, base, 0, 0, f); S.Expected(s, base) == S.Parsed(v, |s|)
  {
    PlainNumber(v, base, f);
    WordFits(v, base, false);
    DigitCount(v, base, false, 32);
    S.RoundTrip(v, base, false);
  }

  /** The number that the last n digits of v write. */
  function LowValue(v: nat, base: nat, n: nat): nat
    requires IsBase(base)
    decreases n
  {
    if n == 0 then 0 else LowValue(Rest(v, base), base, n - 1) * base + DigitValue(LowDigit(v, base, false))
  }

  lemma {:induction false} LowDigitsValue(v: nat, base: nat, upper: bool, n: nat, d: seq<char>, t: seq<char>)
    requires IsBase(base) && d == Digits(v, base, upper) && n <= |d| && t == d[|d| - n..]
    ensures Value(t, 0, n, base) == LowValue(v, base, n)
    decreases n
  {
    if n > 0 {
      var u := LastDigit(v, base, upper, n, d, t);
      if v >= base {
        LowDigitsValue(Rest(v, base), base, upper, n - 1, Digits(Rest(v, base), base, upper), u);
        ValueIgnoresRest(t, u, 0, n - 1, base);
      }
    }
  }

  /** It is v mod base^n. */
  lemma {:induction false} LowValueIsRemainder(v: nat, base: nat, n: nat, p: nat)
    requires IsBase(base) && p == Pow(base, n)
    ensures 0 < p && LowValue(v, base, n) == v % p
    decreases n
  {
    PowPositive(base, n);
    if n > 0 {
      var q := Pow(base, n - 1);
      LowValueIsRemainder(Rest(v, base), base, n - 1, q);
      Remainder(v, base, q);
    }
  }

  /** The last n digits are the last n - 1 of the rest and the low digit. */
  lemma {:induction false} LastDigit(v: nat, base: nat, upper: bool, n: nat, d: seq<char>, t: seq<char>)
    returns (u: seq<char>)
    requires IsBase(base) && d == Digits(v, base, upper) && 0 < n <= |d| && t == d[|d| - n..]
    ensures |t| == n && DigitValue(t[n - 1]) == DigitValue(LowDigit(v, base, false))
    ensures v < base ==> n == 1
    ensures v >= base ==>
      var e := Digits(Rest(v, base), base, upper);
      n - 1 <= |e| && u == e[|e| - (n - 1)..] && u == t[..n - 1]
  {
    QuotientSmaller(v, base);
    u := t[..n - 1];
  }

  /** Taking the remainder digit by digit. */
  lemma {:induction false} Remainder(v: nat, base: nat, p: nat)
    requires IsBase(base) && 0 < p
    ensures 0 < p * base && v % (p * base) == ((v / base) % p) * base + v % base
  {
    var w, r := PowersOfTwo.DivMod(v, base);
    var q, s := PowersOfTwo.DivMod(w, p);
    Recombine(v, w, r, q, s, p, base);
    PowersOfTwo.DivModUnique(v, q, s * base + r, p * base);
  }

  lemma {:induction false} Recombine(v: nat, w: nat, r: nat, q: nat, s: nat, p: nat, base: nat)
    requires v == w * base + r && w == q * p + s && r < base && s < p
    ensures 0 < p * base && v == q * (p * base) + (s * base + r) && s * base + r < p * base
  {
    ScaledLess(s, r, p, base);
    PowersOfTwo.Distribute(q * p, s, base);
    PowersOfTwo.MulAssociative(q, p, base);
  }

  lemma {:induction false} CutValue(v: nat, base: nat, upper: bool, n: nat, p: nat, d: seq<char>)
    requires IsBase(base) && d == Digits(v, base, upper) && n <= |d| && p == Pow(base, n)
    ensures 0 < p && Value(d[|d| - n..], 0, n, base) == v % p
  {
    LowDigitsValue(v, base, upper, n, d, d[|d| - n..]);
    LowValueIsRemainder(v, base, n, p);
  }

  /** The digits an integer conversion keeps are the low ones: their value is that of the number modulo base^32. */
  lemma {:induction false} DigitTextValue(v: nat, base: nat, f: Flags, p: nat)
    requires IsBase(base) && !(f.precise && v == 0) && p == Pow(base, 32)
    ensures var s := DigitText(v, base, f);
            0 < |s| && AllDigits(s, 0, |s|, base) && 0 < p && Value(s, 0, |s|, base) == v % p
  {
    var d := Digits(v, base, f.upper);
    DigitsValue(v, base, f.upper);
    DigitCount(v, base, f.upper, 32);
    PowPositive(base, 32);
    if |d| > 32 {
      CutValue(v, base, f.upper, NTOA_BUFFER, p, d);
    } else {
      SmallRemainder(v, p);
    }
  }

  /** In any base what is read back is the value modulo base^32, so exactly the values of at most 32 digits survive. */
  lemma {:induction false} RoundTripExactly(v: nat, base: nat, f: Flags)
    requires v <= MAX64 && IsBase(base) && Plain(f)
    ensures 0 < Pow(base, 32)
    ensures S.Expected(NumberText(v, false, base, 0, 0, f), base).value == v % Pow(base, 32)
    ensures S.Expected(NumberText(v, false, base, 0, 0, f), base).value == v <==> v < Pow(base, 32)
  {
    PlainNumber(v, base, f);
    RoundTripRemainder(v, base, f, Pow(base, 32), DigitText(v, base, f));
  }

  lemma {:induction false} RoundTripRemainder(v: nat, base: nat, f: Flags, p: nat, s: seq<char>)
    requires v <= MAX64 && IsBase(base) && Plain(f) && p == Pow(base, 32) && s == DigitText(v, base, f)
    ensures 0 < p && S.Expected(s, base).value == v % p && (v % p == v <==> v < p)
  {
    DigitTextValue(v, base, f, p);
    SmallRemainder(v, p);
    assert |s| > 1 ==> DigitValue(s[1]) < base;
    S.PlainDigits(s, base);
  }

  lemma {:induction false} SmallRemainder(v: nat, p: nat)
    requires 0 < p
    ensures v % p <= v && (v % p == v <==> v < p)
  {
  }

  /** "%lb" of 2^32 prints zeros only. */
  lemma {:induction false} BinaryCut(f: Flags)
    requires Plain(f)
    ensures S.Expected(NumberText(0x1_0000_0000, false, 2, 0, 0, f), 2).value == 0
  {
    TwoToThe32();
    RoundTripExactly(0x1_0000_0000, 2, f);
  }

  lemma {:induction false} TwoToThe32()
    ensures Pow(2, 32) == 0x1_0000_0000
  {
    assert Pow(2, 0) == 1;
    EightMore(0);
    EightMore(8);
    EightMore(16);
    EightMore(24);
  }

  lemma {:induction false} EightMore(n: nat)
    ensures Pow(2, n + 8) == 256 * Pow(2, n)
  {
    assert Pow(2, n + 2) == 4 * Pow(2, n) by { assert Pow(2, n + 1) == 2 * Pow(2, n); }
    assert Pow(2, n + 4) == 4 * Pow(2, n + 2) by { assert Pow(2, n + 3) == 2 * Pow(2, n + 2); }
    assert Pow(2, n + 6) == 4 * Pow(2, n + 4) by { assert Pow(2, n + 5) == 2 * Pow(2, n + 4); }
    assert Pow(2, n + 7) == 2 * Pow(2, n + 6);
  }

  /** A signed 64-bit value is read back modulo 2^64. */
  lemma {:induction false} SignedPrintThenParse(v: int, f: Flags)
    requires -0x8000_0000_0000_0000 <= v < 0x8000_0000_0000_0000 && Plain(f)
    ensures var s := SignedText(v, 0, 0, f);
            S.Expected(s, 10) == S.Parsed(if v < 0 then v + MAX64 + 1 else v, |s|)
  {
    var m := if v > 0 then v else -v;
    if v >= 0 {
      PrintThenParse(m, 10, f);
    } else {
      NegativeNumber(m, f);
      S.NegativeRoundTrip(m, 10, false);
    }
  }

  lemma {:induction false} NegativeNumber(m: nat, f: Flags)
    requires 0 < m <= MAX64 && Plain(f)
    ensures NumberText(m, true, 10, 0, 0, f) == ['-'] + Digits(m, 10, false)
  {
    SmallInTen(m);
    var d := DigitText(m, 10, f);
    assert ZeroFilled(d, 0) == d;
    var s := Prepend('-', d);
    assert Padded(s, 0, false) == s;
  }

  /** Twenty decimal digits suffice, so there is room for the sign. */
  lemma {:induction false} SmallInTen(m: nat)
    requires m <= MAX64
    ensures |Digits(m, 10, false)| <= 20
  {
    TenMore(0);
    TenMore(4);
    TenMore(8);
    TenMore(12);
    TenMore(16);
    assert Pow(10, 0) == 1;
    DigitCount(m, 10, false, 20);
  }

  lemma {:induction false} TenMore(n: nat)
    ensures Pow(10, n + 4) == 10000 * Pow(10, n)
  {
    assert Pow(10, n + 2) == 100 * Pow(10, n) by { assert Pow(10, n + 1) == 10 * Pow(10, n); }
    assert Pow(10, n + 3) == 10 * Pow(10, n + 2);
  }

  // ------------------------------------------------------------------- pointers

  /** %p: always sixteen characters, read back in base 16. */
  lemma {:induction false} PointerPrintThenParse(v: nat, s: seq<char>)
    requires v <= MAX64 && s == PointerText(v, 0, NO_FLAGS)
    ensures |s| == 16 && S.Expected(s, 16) == S.Parsed(v, 16)
  {
    SixteenDigits(v);
    var n, d := PointerIsFilled(v, s);
    DigitsValue(v, 16, true);
    FilledIsRead(n, d);
  }

  lemma {:induction false} FilledIsRead(n: nat, d: seq<char>)
    requires n + |d| == 16 && AllDigits(d, 0, |d|, 16) && Value(d, 0, |d|, 16) <= MAX64
    ensures S.Expected(Repeat('0', n) + d, 16) == S.Parsed(Value(d, 0, |d|, 16), 16)
  {
    ZerosKeepValue(n, d, 16);
    var s := Repeat('0', n) + d;
    assert DigitValue(s[1]) < 16;
    S.PlainDigits(s, 16);
  }

  lemma {:induction false} PointerIsFilled(v: nat, s: seq<char>) returns (n: nat, d: seq<char>)
    requires v <= MAX64 && |Digits(v, 16, true)| <= 16 && s == PointerText(v, 0, NO_FLAGS)
    ensures d == Digits(v, 16, true) && n + |d| == 16 && s == Repeat('0', n) + d
  {
    var f := NO_FLAGS.(zero := true, upper := true);
    d := DigitText(v, 16, f);
    n := 16 - |d|;
    PointerIsNumber(v, f);
  }

  lemma {:induction false} PointerIsNumber(v: nat, f: Flags)
    requires v <= MAX64 && f == NO_FLAGS.(zero := true, upper := true)
    ensures PointerText(v, 0, NO_FLAGS) == ZeroFilled(DigitText(v, 16, f), 16)
  {
    assert v % (MAX64 + 1) == v;
    ZeroNumber(DigitText(v, 16, f), 16, f);
  }

  lemma {:induction false} ZeroNumber(d: seq<char>, width: nat, f: Flags)
    requires f == NO_FLAGS.(zero := true, upper := true)
    ensures FormatNumber(d, false, 16, 0, width, f) == ZeroFilled(d, width)
  {
    assert ZeroFilled(d, 0) == d;
  }

  lemma {:induction false} SixteenDigits(v: nat)
    requires v <= MAX64
    ensures |Digits(v, 16, true)| <= 16
  {
    SixteenMore(0);
    SixteenMore(4);
    SixteenMore(8);
    SixteenMore(12);
    assert Pow(16, 0) == 1;
    DigitCount(v, 16, true, 16);
  }

  lemma {:induction false} SixteenMore(n: nat)
    ensures Pow(16, n + 4) == 65536 * Pow(16, n)
  {
    assert Pow(16, n + 2) == 256 * Pow(16, n) by { assert Pow(16, n + 1) == 16 * Pow(16, n); }
    assert Pow(16, n + 3) == 16 * Pow(16, n + 2);
  }

  /** Leading zeros do not change a value. */
  lemma {:induction false} ZerosKeepValue(n: nat, d: seq<char>, base: nat)
    requires IsBase(base) && AllDigits(d, 0, |d|, base)
    ensures var s := Repeat('0', n) + d; AllDigits(s, 0, |s|, base) && Value(s, 0, |s|, base) == Value(d, 0, |d|, base)
  {
    var z := Repeat('0', n);
    var s := z + d;
    OnlyZeros(n);
    assert forall k :: n <= k < |s| ==> s[k] == d[k - n];
    ZerosValue(s, n, base);
    ShiftedValue(s, d, n, |d|, base);
  }

  lemma {:induction false} OnlyZeros(n: nat)
    ensures forall k :: 0 <= k < n ==> Repeat('0', n)[k] == '0'
  {
    if n > 0 { OnlyZeros(n - 1); }
  }

  lemma {:induction false} ZerosValue(s: seq<char>, n: nat, base: nat)
    requires n <= |s| && forall k :: 0 <= k < n ==> s[k] == '0'
    ensures Value(s, 0, n, base) == 0
  {
    if n > 0 { ZerosValue(s, n - 1, base); }
  }

  lemma {:induction false} ShiftedValue(s: seq<char>, d: seq<char>, n: nat, k: nat, base: nat)
    requires |s| == n + |d| && k <= |d| && Value(s, 0, n, base) == 0
    requires forall j :: n <= j < |s| ==> s[j] == d[j - n]
    ensures Value(s, 0, n + k, base) == Value(d, 0, k, base)
  {
    if k > 0 { ShiftedValue(s, d, n, k - 1, base); }
  }

  // -------------------------------------------------------------- whole formats

  /** What such a conversion prints is read back as the value its argument has in the type of the length modifier. */
  lemma {:induction false} IntegerRoundTrip(bits: nat, length: seq<char>, c: char, m: nat, v: int, base: nat, f: Flags)
    requires length in {"", "h", "hh", "l", "ll", "j", "z", "t"} && c in {'d', 'i', 'u', 'x', 'o'}
    requires m == if length == "hh" then 0x100 else if length == "h" then 0x1_0000
                  else if length == "" then 0x1_0000_0000 else 0x1_0000_0000_0000_0000
    requires v == if c in {'d', 'i'} && 2 * (bits % m) >= m then bits % m - m else bits % m
    requires base == if c == 'x' then 16 else if c == 'o' then 8 else 10
    requires f == D.SpelledFlags("", false, length)
    ensures var s := IntegerText(c, bits, 0, 0, f);
            S.Expected(s, base) == S.Parsed(if v < 0 then v + 0x1_0000_0000_0000_0000 else v, |s|)
  {
    var g := D.NumberFlags("", false, length, c);
    D.FlagsLeft("", false, length, c);
    D.TypeNamed(g, length, m);
    D.IntegerByType(c, bits, 0, 0, f, g, m, v, base);
    if c in {'d', 'i'} {
      D.SignedNumber(v, 0, 0, g);
      SignedPrintThenParse(v, g);
    } else {
      PrintThenParse(v, base, g);
    }
  }

  /**
   "%u", "%x", "%o", "%d" and "%i" with any length modifier: strtoull reads
   back, up to the terminator, the argument reduced to the type that the
   modifier names, negative values modulo 2^64.
   */
  lemma {:induction false} FormatRoundTrip(bits: nat, length: seq<char>, c: char, m: nat, v: int, base: nat)
    returns (s: seq<char>)
    requires length in {"", "h", "hh", "l", "ll", "j", "z", "t"} && c in {'d', 'i', 'u', 'x', 'o'}
    requires m == if length == "hh" then 0x100 else if length == "h" then 0x1_0000
                  else if length == "" then 0x1_0000_0000 else 0x1_0000_0000_0000_0000
    requires v == if c in {'d', 'i'} && 2 * (bits % m) >= m then bits % m - m else bits % m
    requires base == if c == 'x' then 16 else if c == 'o' then 8 else 10
    ensures Printed(['%'] + length + [c], [Word(bits)]) == Some(s)
    ensures S.Expected(s, base) == S.Parsed(if v < 0 then v + 0x1_0000_0000_0000_0000 else v, |s|)
  {
    var fl := D.SpelledFlags("", false, length);
    s := IntegerText(c, bits, 0, 0, fl);
    IntegerRoundTrip(bits, length, c, m, v, base, fl);
    PlainPrinted(bits, length, c, fl, s);
  }

  lemma {:induction false} PlainPrinted(bits: nat, length: seq<char>, c: char, fl: Flags, s: seq<char>)
    requires length in {"", "h", "hh", "l", "ll", "j", "z", "t"} && c in {'d', 'i', 'u', 'x', 'o'}
    requires fl == D.SpelledFlags("", false, length) && s == IntegerText(c, bits, 0, 0, fl)
    ensures Printed(['%'] + length + [c], [Word(bits)]) == Some(s)
  {
    var f := ['%'] + length + [c];
    assert f == D.Spelled("", "", None, length, c);
    D.RenderedNumber(c, Spec(|f| - 1, 0, fl, 0, 0), bits);
    D.PrintedDirective("", "", None, length, c, [Word(bits)], f, Spec(|f| - 1, 0, fl, 0, 0), s);
  }
}
