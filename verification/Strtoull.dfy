/** strtoull: a saturating scanner, against the positional value of the digits it reads. */
module Strtoull {
  import opened Numerals

  // ------------------------------------------------------------- what it reads

  predicate IsSpace(c: char) {
    c == ' ' || c == '\t'
  }

  function SkipSpaces(s: seq<char>, i: nat): (r: nat)
    requires i <= |s|
    ensures i <= r <= |s| && (forall k :: i <= k < r ==> IsSpace(s[k])) && !IsSpace(At(s, r))
    decreases |s| - i
  {
    if IsSpace(At(s, i)) then SkipSpaces(s, i + 1) else i
  }

  predicate HasSign(s: seq<char>, i: nat)
    requires i <= |s|
  {
    At(s, i) == '-' || At(s, i) == '+'
  }

  predicate HasPrefix(s: seq<char>, i: nat, base: nat)
    requires i <= |s|
  {
    (base == 0 || base == 16) && At(s, i) == '0' && (At(s, i + 1) == 'x' || At(s, i + 1) == 'X')
  }

  /** Where the number starts, behind spaces and sign. */
  function NumberAt(s: seq<char>): (r: nat)
    ensures r <= |s|
  {
    var i := SkipSpaces(s, 0);
    if HasSign(s, i) then i + 1 else i
  }

  predicate Negative(s: seq<char>) {
    At(s, SkipSpaces(s, 0)) == '-'
  }

  /** The base of a number at i without prefix. */
  function NumberBase(s: seq<char>, i: nat, base: nat): (b: nat)
    requires i <= |s| && (base == 0 || IsBase(base))
    ensures IsBase(b)
  {
    if base != 0 then base else if At(s, i) == '0' then 8 else 10
  }

  /** The value promised for a digit string of value v: exact, saturated, or negated modulo 2^64. */
  function Promised(v: nat, negative: bool): (r: nat)
    ensures r <= MAX64
  {
    if v > MAX64 then MAX64
    else if negative && v != 0 then MAX64 + 1 - v
    else v
  }

  datatype Parsed = Parsed(value: nat, end: nat)

  /** The number read at i: a 0x counts with or without a digit behind it. */
  function NumberRead(s: seq<char>, i: nat, base: nat, negative: bool): Parsed
    requires i <= |s| && (base == 0 || IsBase(base))
  {
    var hex := HasPrefix(s, i, base);
    DigitsRead(s, if hex then i + 2 else i, if hex then 16 else NumberBase(s, i, base), negative)
  }

  function DigitsRead(s: seq<char>, lo: nat, b: nat, negative: bool): Parsed
    requires lo <= |s| && IsBase(b)
  {
    var hi := RunEnd(s, lo, b);
    Parsed(Promised(Value(s, lo, hi, b), negative), if lo < hi then hi else 0)
  }

  function Expected(s: seq<char>, base: nat): Parsed
    requires base == 0 || IsBase(base)
  {
    NumberRead(s, NumberAt(s), base, Negative(s))
  }

  // ------------------------------------------------------------------ the scan

  /** The cutoff test says exactly whether one more digit overflows 64 bits. */
  lemma {:induction false} CutoffIsExact(acc: nat, d: nat, base: nat)
    requires IsBase(base) && d < base
    ensures acc > MAX64 / base || (acc == MAX64 / base && d > MAX64 % base) <==> acc * base + d > MAX64
  {
    QuotientSmaller(MAX64, base);
    var q, r := MAX64 / base, MAX64 % base;
    if acc > q {
      assert acc * base >= (q + 1) * base == q * base + base;
    } else if acc < q {
      assert (acc + 1) * base <= q * base;
      assert (acc + 1) * base == acc * base + base;
    }
  }

  lemma {:induction false} StaysLarge(v: nat, d: nat, base: nat)
    requires v > MAX64 && IsBase(base)
    ensures v * base + d > MAX64
  {
  }

  /** Reading one more digit: what the cutoff test decides. */
  lemma {:induction false} OneMoreDigit(s: seq<char>, lo: nat, pos: nat, b: nat)
    requires IsBase(b) && lo <= pos < |s| && DigitValue(s[pos]) < b
    ensures var v, d := Value(s, lo, pos, b), DigitValue(s[pos]);
            && Value(s, lo, pos + 1, b) == v * b + d
            && (v > MAX64 || v > MAX64 / b || (v == MAX64 / b && d > MAX64 % b) <==> Value(s, lo, pos + 1, b) > MAX64)
  {
    var v, d := Value(s, lo, pos, b), DigitValue(s[pos]);
    CutoffIsExact(v, d, b);
    if v > MAX64 { StaysLarge(v, d, b); }
  }

  /** strtoull; `end` is the offset stored through endptr. */
  method Strtoull(s: seq<char>, base: nat) returns (r: Parsed)
    requires base == 0 || IsBase(base)
    ensures r == Expected(s, base)
  {
    var pos := SpaceLoop(s);
    var neg := At(s, pos) == '-';
    if HasSign(s, pos) {
      pos := pos + 1;
    }
    assert pos == NumberAt(s) && neg == Negative(s);
    r := ReadAfterSign(s, pos, base, neg);
  }

  method ReadAfterSign(s: seq<char>, pos: nat, base: nat, neg: bool) returns (r: Parsed)
    requires pos <= |s| && (base == 0 || IsBase(base))
    ensures r == NumberRead(s, pos, base, neg)
  {
    var lo, b := SkipPrefix(s, pos, base);
    r := ReadNumber(s, lo, b, neg);
  }

  method SkipPrefix(s: seq<char>, pos: nat, base: nat) returns (lo: nat, b: nat)
    requires pos <= |s| && (base == 0 || IsBase(base))
    ensures lo == if HasPrefix(s, pos, base) then pos + 2 else pos
    ensures b == if HasPrefix(s, pos, base) then 16 else NumberBase(s, pos, base)
  {
    lo, b := pos, base;
    if HasPrefix(s, pos, base) {
      lo := pos + 2;
      b := 16;
    }
    if b == 0 {
      b := if At(s, pos) == '0' then 8 else 10;
    }
  }

  method SpaceLoop(s: seq<char>) returns (pos: nat)
    ensures pos == SkipSpaces(s, 0)
  {
    pos := 0;
    while IsSpace(At(s, pos))
      invariant pos <= |s| && SkipSpaces(s, pos) == SkipSpaces(s, 0)
      decreases |s| - pos
    {
      pos := pos + 1;
    }
  }

  method ReadNumber(s: seq<char>, lo: nat, b: nat, neg: bool) returns (r: Parsed)
    requires lo <= |s| && IsBase(b)
    ensures r == DigitsRead(s, lo, b, neg)
  {
    var acc, any, end := ScanDigits(s, lo, b);
    if any < 0 {
      acc := MAX64;
    } else if neg {
      acc := Negated(acc);
    }
    r := Parsed(acc, if any != 0 then end else 0);
  }

  /** `-acc` in 64-bit arithmetic. */
  function Negated(acc: nat): (r: nat)
    requires acc <= MAX64
    ensures r <= MAX64 && (r + acc) % (MAX64 + 1) == 0
  {
    if acc == 0 then 0 else MAX64 + 1 - acc
  }

  method ScanDigits(s: seq<char>, from: nat, b: nat) returns (acc: nat, any: int, pos: nat)
    requires from <= |s| && IsBase(b)
    ensures pos == RunEnd(s, from, b)
    ensures any == 0 <==> pos == from
    ensures any < 0 <==> Value(s, from, pos, b) > MAX64
    ensures any >= 0 ==> acc == Value(s, from, pos, b)
  {
    var cutoff, cutlim := MAX64 / b, MAX64 % b;
    acc, any, pos := 0, 0, from;
    while DigitValue(At(s, pos)) < b
      invariant from <= pos <= |s| && AllDigits(s, from, pos, b)
      invariant any == 0 <==> pos == from
      invariant any < 0 <==> Value(s, from, pos, b) > MAX64
      invariant any >= 0 ==> acc == Value(s, from, pos, b)
      decreases |s| - pos
    {
      var c := DigitValue(At(s, pos));
      OneMoreDigit(s, from, pos, b);
      if any < 0 || acc > cutoff || (acc == cutoff && c > cutlim) {
        any := -1;
      } else {
        any := 1;
        acc := acc * b + c;
      }
      pos := pos + 1;
    }
    RunEndUnique(s, from, b, pos);
  }

  // ---------------------------------------------------------------- properties

  /** Digits alone: the exact value when it fits, the largest value otherwise, and the end behind them. */
  lemma {:induction false} PlainDigits(s: seq<char>, base: nat)
    requires IsBase(base) && s != [] && AllDigits(s, 0, |s|, base)
    requires !HasPrefix(s, 0, base)
    ensures Expected(s, base) == Parsed(Promised(Value(s, 0, |s|, base), false), |s|)
  {
    assert DigitValue(s[0]) < base;
    assert SkipSpaces(s, 0) == 0;
    RunEndUnique(s, 0, base, |s|);
  }

  /** Every 64-bit number is read back from its digits, up to the terminator. */
  lemma {:induction false} RoundTrip(v: nat, base: nat, upper: bool)
    requires v <= MAX64 && IsBase(base)
    ensures var s := Digits(v, base, upper); Expected(s, base) == Parsed(v, |s|)
  {
    var s := Digits(v, base, upper);
    DigitsValue(v, base, upper);
    assert base == 16 && |s| > 1 ==> DigitValue(s[1]) < 16;
    PlainDigits(s, base);
  }

  /** The same behind a minus sign: the two's complement of the number. */
  lemma {:induction false} NegativeRoundTrip(v: nat, base: nat, upper: bool)
    requires v <= MAX64 && IsBase(base)
    ensures var s := ['-'] + Digits(v, base, upper);
            Expected(s, base) == Parsed(if v == 0 then 0 else MAX64 + 1 - v, |s|)
  {
    var t := Digits(v, base, upper);
    DigitsValue(v, base, upper);
    SignedDigits(t, base);
  }

  lemma {:induction false} SignedDigits(t: seq<char>, base: nat)
    requires IsBase(base) && t != [] && AllDigits(t, 0, |t|, base)
    ensures Expected(['-'] + t, base) == Parsed(Promised(Value(t, 0, |t|, base), true), |t| + 1)
  {
    var s := ['-'] + t;
    NumberBehindSign(s, base);
    ValueShift(s, t, |t|, base);
    assert forall k :: 1 <= k < |s| ==> s[k] == t[k - 1];
    RunEndUnique(s, 1, base, |s|);
  }

  lemma {:induction false} NumberBehindSign(s: seq<char>, base: nat)
    requires IsBase(base) && |s| > 1 && s[0] == '-' && (|s| > 2 ==> DigitValue(s[2]) < base)
    ensures Negative(s) && NumberAt(s) == 1 && !HasPrefix(s, 1, base)
  {
    assert SkipSpaces(s, 0) == 0;
    assert base == 16 && |s| > 2 ==> DigitValue(s[2]) < 16;
  }

  lemma {:induction false} ValueShift(s: seq<char>, t: seq<char>, n: nat, base: nat)
    requires n <= |t| && |s| == |t| + 1 && forall k :: 0 <= k < |t| ==> s[k + 1] == t[k]
    ensures Value(s, 1, n + 1, base) == Value(t, 0, n, base)
  {
    if n > 0 { ValueShift(s, t, n - 1, base); }
  }

  // --------------------------------------------------- numbers from their parts

  lemma {:induction false} SpacesSkipped(s: seq<char>, i: nat, n: nat)
    requires i <= n <= |s| && (forall k :: i <= k < n ==> s[k] == ' ' || s[k] == '\t')
    requires n < |s| ==> s[n] != ' ' && s[n] != '\t'
    ensures SkipSpaces(s, i) == n
    decreases n - i
  {
    if i < n { SpacesSkipped(s, i + 1, n); }
  }

  lemma {:induction false} ValueOfPart(s: seq<char>, i: nat, digits: seq<char>, n: nat, b: nat)
    requires n <= |digits| && i + |digits| <= |s| && forall k :: 0 <= k < |digits| ==> s[i + k] == digits[k]
    ensures Value(s, i, i + n, b) == Value(digits, 0, n, b)
  {
    if n > 0 { ValueOfPart(s, i, digits, n - 1, b); }
  }

  /** The digits at lo are read up to the rest. */
  lemma {:induction false} DigitsAt(s: seq<char>, lo: nat, digits: seq<char>, b: nat, v: nat, negative: bool)
    requires IsBase(b) && digits != [] && lo + |digits| <= |s| && v == Value(digits, 0, |digits|, b)
    requires forall k :: 0 <= k < |digits| ==> s[lo + k] == digits[k] && DigitValue(digits[k]) < b
    requires DigitValue(At(s, lo + |digits|)) >= b
    ensures DigitsRead(s, lo, b, negative)
         == Parsed(if v > 0xFFFF_FFFF_FFFF_FFFF then 0xFFFF_FFFF_FFFF_FFFF
                   else if negative && v > 0 then 0x1_0000_0000_0000_0000 - v else v, lo + |digits|)
  {
    forall k | lo <= k < lo + |digits|
      ensures DigitValue(s[k]) < b
    {
      assert s[k] == digits[k - lo];
    }
    RunEndUnique(s, lo, b, lo + |digits|);
    ValueOfPart(s, lo, digits, |digits|, b);
  }

  /**
   Spaces and tabs, a sign, a prefix where the base allows it, digits and
   anything that is no digit: the value of the digits in the base that base
   and prefix or a leading 0 select, ULLONG_MAX when it has more than 64 bits,
   negated modulo 2^64 behind a minus, and the end of the digits.
   */
  lemma {:induction false} ReadFromParts(spaces: seq<char>, sign: seq<char>, prefix: seq<char>, digits: seq<char>,
                                         rest: seq<char>, base: nat, b: nat, v: nat, number: seq<char>, s: seq<char>)
    requires number == prefix + digits + rest && s == spaces + sign + number
    requires (base == 0 || IsBase(base)) && digits != []
    requires (forall k :: 0 <= k < |spaces| ==> spaces[k] == ' ' || spaces[k] == '\t') && sign in {"", "+", "-"}
    requires prefix in {"", "0x", "0X"} && (prefix != "" ==> base in {0, 16})
    requires prefix == "" && base in {0, 16} ==> !("0x" <= digits + rest) && !("0X" <= digits + rest)
    requires b == if prefix != "" then 16 else if base != 0 then base else if digits[0] == '0' then 8 else 10
    requires (forall k :: 0 <= k < |digits| ==> DigitValue(digits[k]) < b) && (rest != [] ==> DigitValue(rest[0]) >= b)
    requires v == Value(digits, 0, |digits|, b)
    ensures Expected(s, base)
         == Parsed(if v > 0xFFFF_FFFF_FFFF_FFFF then 0xFFFF_FFFF_FFFF_FFFF
                   else if sign == "-" && v > 0 then 0x1_0000_0000_0000_0000 - v else v, |s| - |rest|)
  {
    var i, negative := |spaces| + |sign|, sign == "-";
    assert number[0] == if prefix == "" then digits[0] else '0';
    StartFound(spaces, sign, number, s);
    NumberPart(s, i, prefix, digits, rest, base, b, v, negative);
    ExpectedFrom(s, base, i, negative, NumberRead(s, i, base, negative));
  }

  lemma {:induction false} ExpectedFrom(s: seq<char>, base: nat, i: nat, negative: bool, r: Parsed)
    requires (base == 0 || IsBase(base)) && i <= |s| && NumberAt(s) == i && Negative(s) == negative
    requires NumberRead(s, i, base, negative) == r
    ensures Expected(s, base) == r
  {
  }

  lemma {:induction false} NumberPart(s: seq<char>, i: nat, prefix: seq<char>, digits: seq<char>, rest: seq<char>,
                                      base: nat, b: nat, v: nat, negative: bool)
    requires i <= |s| && s[i..] == prefix + digits + rest && digits != [] && (base == 0 || IsBase(base))
    requires prefix in {"", "0x", "0X"} && (prefix != "" ==> base in {0, 16})
    requires prefix == "" && base in {0, 16} ==> !("0x" <= digits + rest) && !("0X" <= digits + rest)
    requires b == if prefix != "" then 16 else if base != 0 then base else if digits[0] == '0' then 8 else 10
    requires (forall k :: 0 <= k < |digits| ==> DigitValue(digits[k]) < b) && (rest != [] ==> DigitValue(rest[0]) >= b)
    requires v == Value(digits, 0, |digits|, b)
    ensures NumberRead(s, i, base, negative)
         == Parsed(if v > 0xFFFF_FFFF_FFFF_FFFF then 0xFFFF_FFFF_FFFF_FFFF
                   else if negative && v > 0 then 0x1_0000_0000_0000_0000 - v else v, |s| - |rest|)
  {
    PrefixFound(s, i, prefix, digits, rest, base);
    var lo := i + |prefix|;
    PartsOf(s, i, prefix, digits, rest);
    DigitsAt(s, lo, digits, b, v, negative);
  }

  lemma {:induction false} PartsOf(s: seq<char>, i: nat, prefix: seq<char>, digits: seq<char>, rest: seq<char>)
    requires i <= |s| && s[i..] == prefix + digits + rest
    ensures var lo := i + |prefix|;
            && |s| == lo + |digits| + |rest| && (forall k :: 0 <= k < |digits| ==> s[lo + k] == digits[k])
            && At(s, lo + |digits|) == if rest == [] then '\0' else rest[0]
  {
    var t, lo := s[i..], i + |prefix|;
    assert forall k :: 0 <= k < |t| ==> s[i + k] == t[k];
    forall k | 0 <= k < |digits|
      ensures s[lo + k] == digits[k]
    {
      assert s[i + (|prefix| + k)] == t[|prefix| + k];
    }
    if rest != [] { assert s[i + (|prefix| + |digits|)] == t[|prefix| + |digits|]; }
  }

  lemma {:induction false} StartFound(spaces: seq<char>, sign: seq<char>, number: seq<char>, s: seq<char>)
    requires s == spaces + sign + number && (forall k :: 0 <= k < |spaces| ==> spaces[k] == ' ' || spaces[k] == '\t')
    requires sign in {"", "+", "-"} && (sign == "" && number != [] ==> number[0] !in {' ', '\t', '+', '-'})
    ensures NumberAt(s) == |spaces| + |sign| && (Negative(s) <==> sign == "-") && s[|spaces| + |sign|..] == number
  {
    var n := |spaces|;
    assert sign != [] ==> s[n] == sign[0];
    assert sign == [] && number != [] ==> s[n] == number[0];
    SpacesSkipped(s, 0, n);
  }

  lemma {:induction false} PrefixFound(s: seq<char>, i: nat, prefix: seq<char>, digits: seq<char>, rest: seq<char>,
                                       base: nat)
    requires i <= |s| && s[i..] == prefix + digits + rest && digits != [] && (base == 0 || IsBase(base))
    requires prefix in {"", "0x", "0X"} && (prefix != "" ==> base in {0, 16})
    requires prefix == "" && base in {0, 16} ==> !("0x" <= digits + rest) && !("0X" <= digits + rest)
    ensures HasPrefix(s, i, base) <==> prefix != ""
    ensures prefix == "" ==> At(s, i) == digits[0]
  {
    var t := prefix + digits + rest;
    assert s[i] == t[0] && (|t| > 1 ==> s[i + 1] == t[1]);
    if prefix == "" { assert t == digits + rest; }
  }

  /** Without a digit nothing is read and nothing consumed. */
  lemma {:induction false} NothingToRead(spaces: seq<char>, sign: seq<char>, rest: seq<char>, base: nat, s: seq<char>)
    requires s == spaces + sign + rest && (base == 0 || IsBase(base)) && sign in {"", "+", "-"}
    requires forall k :: 0 <= k < |spaces| ==> spaces[k] == ' ' || spaces[k] == '\t'
    requires rest == [] || DigitValue(rest[0]) >= if base == 0 then 10 else base
    requires sign == "" && rest != [] ==> rest[0] !in {' ', '\t', '+', '-'}
    ensures Expected(s, base) == Parsed(0, 0)
  {
    var i := |spaces| + |sign|;
    StartFound(spaces, sign, rest, s);
    assert At(s, i) == if rest == [] then '\0' else rest[0];
    NoDigit(s, i, base, sign == "-");
    ExpectedFrom(s, base, i, sign == "-", Parsed(0, 0));
  }

  lemma {:induction false} NoDigit(s: seq<char>, i: nat, base: nat, negative: bool)
    requires i <= |s| && (base == 0 || IsBase(base)) && DigitValue(At(s, i)) >= if base == 0 then 10 else base
    ensures NumberRead(s, i, base, negative) == Parsed(0, 0)
  {
    assert RunEnd(s, i, NumberBase(s, i, base)) == i;
  }

  // ------------------------------------------- section 7.22.1.4 of ISO C11

  /** White space of the C locale that isspace of this library does not know. */
  predicate IsOtherSpace(c: char) {
    c == '\n' || c == 11 as char || c == 12 as char || c == '\r'
  }

  /** Together the two are space and the five characters from tab to carriage return. */
  lemma {:induction false} WhiteSpace(c: char)
    ensures IsSpace(c) || IsOtherSpace(c) <==> c == ' ' || 9 <= c as int <= 13
    ensures IsSpace(c) <==> c as int == 9 || c as int == 32
  {
  }

  /** Behind all white space of the C locale. */
  function SkipAllSpaces(s: seq<char>, i: nat): (r: nat)
    requires i <= |s|
    ensures i <= r <= |s| && (forall k :: i <= k < r ==> IsSpace(s[k]) || IsOtherSpace(s[k]))
    ensures !IsSpace(At(s, r)) && !IsOtherSpace(At(s, r))
    decreases |s| - i
  {
    if IsSpace(At(s, i)) || IsOtherSpace(At(s, i)) then SkipAllSpaces(s, i + 1) else i
  }

  /** The number the standard reads at i, behind white space and sign: a 0x counts only with a hexadecimal digit. */
  function StandardNumber(s: seq<char>, i: nat, base: nat, negative: bool): Parsed
    requires i <= |s| && (base == 0 || IsBase(base))
  {
    var hex := HasPrefix(s, i, base) && DigitValue(At(s, i + 2)) < 16;
    DigitsRead(s, if hex then i + 2 else i, if hex then 16 else NumberBase(s, i, base), negative)
  }

  function StandardParsed(s: seq<char>, base: nat): Parsed
    requires base == 0 || IsBase(base)
  {
    var i := SkipAllSpaces(s, 0);
    StandardNumber(s, if HasSign(s, i) then i + 1 else i, base, At(s, i) == '-')
  }

  /** A digit of the base stands behind white space and sign. */
  predicate NumberFollows(s: seq<char>, base: nat)
    requires base == 0 || IsBase(base)
  {
    var i := SkipAllSpaces(s, 0);
    var j := if HasSign(s, i) then i + 1 else i;
    DigitValue(At(s, j)) < NumberBase(s, j, base)
  }

  /** The first character behind spaces and tabs is white space that is not skipped. */
  predicate StopsAtSpace(s: seq<char>) {
    IsOtherSpace(At(s, SkipSpaces(s, 0)))
  }

  predicate PrefixWithoutDigit(s: seq<char>, base: nat) {
    HasPrefix(s, NumberAt(s), base) && DigitValue(At(s, NumberAt(s) + 2)) >= 16
  }

  /**
   Value and end are the standard's exactly when no number hides behind a
   newline or its like and no 0x lacks its digit.
   */
  lemma {:induction false} StandardExactly(s: seq<char>, base: nat)
    requires base == 0 || IsBase(base)
    ensures Expected(s, base) == StandardParsed(s, base)
      <==> !PrefixWithoutDigit(s, base) && (StopsAtSpace(s) ==> !NumberFollows(s, base))
  {
    if StopsAtSpace(s) {
      NothingRead(s, base);
      NumberShows(s, base);
    } else {
      SkipsAgree(s, 0);
      SameNumber(s, base);
    }
  }

  /** Before a newline or its like nothing is read. */
  lemma {:induction false} NothingRead(s: seq<char>, base: nat)
    requires (base == 0 || IsBase(base)) && StopsAtSpace(s)
    ensures Expected(s, base) == Parsed(0, 0) && !HasPrefix(s, NumberAt(s), base)
  {
    var i := SkipSpaces(s, 0);
    assert NumberAt(s) == i && DigitValue(At(s, i)) == 36;
    assert RunEnd(s, i, NumberBase(s, i, base)) == i;
  }

  /** The standard reads something exactly when a number follows. */
  lemma {:induction false} NumberShows(s: seq<char>, base: nat)
    requires base == 0 || IsBase(base)
    ensures StandardParsed(s, base).end > 0 <==> NumberFollows(s, base)
    ensures StandardParsed(s, base).end == 0 ==> StandardParsed(s, base).value == 0
  {
    var i := SkipAllSpaces(s, 0);
    ReadsWhatFollows(s, if HasSign(s, i) then i + 1 else i, base, At(s, i) == '-');
  }

  lemma {:induction false} ReadsWhatFollows(s: seq<char>, i: nat, base: nat, negative: bool)
    requires i <= |s| && (base == 0 || IsBase(base))
    ensures var r := StandardNumber(s, i, base, negative);
            (r.end > 0 <==> DigitValue(At(s, i)) < NumberBase(s, i, base)) && (r.end == 0 ==> r.value == 0)
  {
  }

  lemma {:induction false} SkipsAgree(s: seq<char>, i: nat)
    requires i <= |s| && !IsOtherSpace(At(s, SkipSpaces(s, i)))
    ensures SkipAllSpaces(s, i) == SkipSpaces(s, i)
    decreases |s| - i
  {
    if IsSpace(At(s, i)) { SkipsAgree(s, i + 1); }
  }

  /** With the same start, the code and the standard differ only on a 0x without a hexadecimal digit. */
  lemma {:induction false} SameNumber(s: seq<char>, base: nat)
    requires (base == 0 || IsBase(base)) && SkipAllSpaces(s, 0) == SkipSpaces(s, 0)
    ensures Expected(s, base) == StandardParsed(s, base) <==> !PrefixWithoutDigit(s, base)
  {
    SameNumberAt(s, NumberAt(s), base, Negative(s));
  }

  lemma {:induction false} SameNumberAt(s: seq<char>, i: nat, base: nat, negative: bool)
    requires i <= |s| && (base == 0 || IsBase(base))
    ensures NumberRead(s, i, base, negative) == StandardNumber(s, i, base, negative)
      <==> !(HasPrefix(s, i, base) && DigitValue(At(s, i + 2)) >= 16)
  {
    if HasPrefix(s, i, base) && DigitValue(At(s, i + 2)) >= 16 {
      assert RunEnd(s, i + 2, 16) == i + 2;
      ReadsWhatFollows(s, i, base, negative);
    }
  }

  /** A prefix without digits: nothing is consumed although the 0 is a number. */
  lemma {:induction false} PrefixAlone()
    ensures Expected("0x", 16) == Parsed(0, 0) && StandardParsed("0x", 16) == Parsed(0, 1)
  {
    var s := "0x";
    assert SkipSpaces(s, 0) == 0 && SkipAllSpaces(s, 0) == 0;
    assert RunEnd(s, 2, 16) == 2;
    RunEndUnique(s, 0, 16, 1);
    assert Value(s, 0, 1, 16) == Value(s, 0, 0, 16) * 16 + 0;
  }

  /** A number behind a newline is not read. */
  lemma {:induction false} NewlineStops()
    ensures Expected("\n7", 10) == Parsed(0, 0) && StandardParsed("\n7", 10) == Parsed(7, 2)
  {
    var s := "\n7";
    assert SkipSpaces(s, 0) == 0 && SkipAllSpaces(s, 1) == 1 && SkipAllSpaces(s, 0) == 1;
    assert RunEnd(s, 0, 10) == 0;
    RunEndUnique(s, 1, 10, 2);
    assert Value(s, 1, 2, 10) == Value(s, 1, 1, 10) * 10 + 7;
  }
}
