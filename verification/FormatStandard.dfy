/**
 What section 7.21.6.1 of ISO C11 says a directive prints, stated on the
 characters of the directive, and that vsnprintf prints it: for every flag,
 width, precision, length modifier and conversion of integers, strings and
 characters, as long as digits, precision and zero-filled width stay below the
 32 characters of the number buffer.
 */
module FormatStandard {
  import opened Numerals
  import opened Options
  import opened FormatText
  import L = FormatLimits

  // ------------------------------------------------------- spelling a directive

  /** A directive without *: %, flags, width, perhaps a period and a precision, length modifier, conversion. */
  function Spelled(flags: seq<char>, width: seq<char>, prec: Option<seq<char>>, length: seq<char>,
                   c: char): (f: seq<char>)
    ensures |f| > 0
  {
    ['%'] + flags + width + (if prec.None? then [] else ['.'] + prec.value) + length + [c]
  }

  ghost predicate Decimal(s: seq<char>) {
    forall k :: 0 <= k < |s| ==> '0' <= s[k] <= '9'
  }

  /** The parts are what they are called, and the width does not begin with the flag 0. */
  ghost predicate WellSpelled(flags: seq<char>, width: seq<char>, prec: Option<seq<char>>, length: seq<char>, c: char) {
    && (forall k :: 0 <= k < |flags| ==> flags[k] in {'0', '-', '+', ' ', '#'})
    && Decimal(width) && (width != [] ==> width[0] != '0') && (prec.Some? ==> Decimal(prec.value))
    && length in {"", "h", "hh", "l", "ll", "j", "z", "t"}
    && c in {'d', 'i', 'u', 'x', 'X', 'o', 'b', 's', 'c', '%'}
  }

  // -------------------------------------------------------- reading a directive

  /** f has the characters of part at i. */
  ghost predicate PartAt(f: seq<char>, i: nat, part: seq<char>) {
    i + |part| <= |f| && forall k :: 0 <= k < |part| ==> f[i + k] == part[k]
  }

  function WithFlags(f: Flags, chars: seq<char>): Flags {
    f.(zero := f.zero || '0' in chars, left := f.left || '-' in chars, plus := f.plus || '+' in chars,
       space := f.space || ' ' in chars, hash := f.hash || '#' in chars)
  }

  lemma {:induction false} OneFlag(f: Flags, c: char, rest: seq<char>)
    requires c in {'0', '-', '+', ' ', '#'}
    ensures WithFlags(AddFlag(c, f), rest) == WithFlags(f, [c] + rest)
  {
    assert forall d :: d in [c] + rest <==> d == c || d in rest;
  }

  lemma {:induction false} FlagsRead(f: seq<char>, s: Spec, flags: seq<char>)
    requires PartAt(f, s.i, flags) && !IsFlag(At(f, s.i + |flags|))
    requires forall k :: 0 <= k < |flags| ==> flags[k] in {'0', '-', '+', ' ', '#'}
    ensures ReadFlags(f, s) == s.(i := s.i + |flags|, flags := WithFlags(s.flags, flags))
    decreases |flags|
  {
    if flags == [] {
      assert WithFlags(s.flags, flags) == s.flags;
    } else {
      assert f[s.i] == flags[0];
      var rest := flags[1..];
      assert flags == [flags[0]] + rest;
      OneFlag(s.flags, flags[0], rest);
      FlagsRead(f, s.(i := s.i + 1, flags := AddFlag(f[s.i], s.flags)), rest);
    }
  }

  /** A run of decimal digits has the value it has alone. */
  lemma {:induction false} NumberRead(f: seq<char>, i: nat, digits: seq<char>)
    requires PartAt(f, i, digits) && Decimal(digits) && DigitValue(At(f, i + |digits|)) >= 10
    ensures RunEnd(f, i, 10) == i + |digits| && Number(f, i) == Value(digits, 0, |digits|, 10) % WORD32
  {
    forall k | i <= k < i + |digits|
      ensures DigitValue(f[k]) < 10
    {
      assert f[k] == digits[k - i];
    }
    RunEndUnique(f, i, 10, i + |digits|);
    ValueOfPart(f, i, digits, |digits|);
  }

  lemma {:induction false} ValueOfPart(f: seq<char>, i: nat, part: seq<char>, n: nat)
    requires PartAt(f, i, part) && n <= |part|
    ensures Value(f, i, i + n, 10) == Value(part, 0, n, 10)
  {
    if n > 0 { ValueOfPart(f, i, part, n - 1); }
  }

  lemma {:induction false} WidthRead(f: seq<char>, args: seq<Arg>, s: Spec, width: seq<char>)
    requires PartAt(f, s.i, width) && Decimal(width) && s.width == 0
    requires DigitValue(At(f, s.i + |width|)) >= 10 && At(f, s.i + |width|) != '*'
    ensures ReadWidth(f, args, s)
         == Some(s.(i := s.i + |width|, width := Value(width, 0, |width|, 10) % WORD32))
  {
    NumberRead(f, s.i, width);
    if width != [] { assert f[s.i] == width[0]; }
  }

  lemma {:induction false} PrecisionRead(f: seq<char>, args: seq<Arg>, s: Spec, prec: Option<seq<char>>)
    requires s.prec == 0 && !s.flags.precise
    requires prec.None? ==> s.i <= |f| && At(f, s.i) != '.'
    requires prec.Some? ==>
      && s.i < |f| && f[s.i] == '.' && PartAt(f, s.i + 1, prec.value) && Decimal(prec.value)
      && DigitValue(At(f, s.i + 1 + |prec.value|)) >= 10 && At(f, s.i + 1 + |prec.value|) != '*'
    ensures ReadPrecision(f, args, s)
         == Some(if prec.None? then s
                 else s.(i := s.i + 1 + |prec.value|, flags := s.flags.(precise := true),
                         prec := Value(prec.value, 0, |prec.value|, 10) % WORD32))
  {
    if prec.Some? {
      NumberRead(f, s.i + 1, prec.value);
      if prec.value != [] { assert f[s.i + 1] == prec.value[0]; }
    }
  }

  lemma {:induction false} LengthRead(f: seq<char>, s: Spec, length: seq<char>)
    requires PartAt(f, s.i, length) && length in {"", "h", "hh", "l", "ll", "j", "z", "t"}
    requires At(f, s.i + |length|) !in {'h', 'l', 'j', 'z', 't'}
    requires !s.flags.tiny && !s.flags.short && !s.flags.long && !s.flags.longLong
    ensures ReadLength(f, s)
         == s.(i := s.i + |length|,
               flags := s.flags.(tiny := length == "hh", short := length == "h" || length == "hh",
                                 long := length in {"l", "ll", "j", "z", "t"}, longLong := length == "ll"))
  {
    if |length| > 0 { assert f[s.i] == length[0]; }
    if |length| > 1 { assert f[s.i + 1] == length[1]; }
  }

  /** Where the parts of a spelled directive lie, and what is behind each of them. */
  lemma {:induction false} PartsLie(flags: seq<char>, width: seq<char>, prec: Option<seq<char>>, length: seq<char>,
                                    c: char, f: seq<char>)
    requires f == Spelled(flags, width, prec, length, c)
    ensures var p := if prec.None? then 0 else 1 + |prec.value|;
            && |f| == 1 + |flags| + |width| + p + |length| + 1 && f[0] == '%' && f[|f| - 1] == c
            && PartAt(f, 1, flags) && PartAt(f, 1 + |flags|, width)
            && (prec.Some? ==> f[1 + |flags| + |width|] == '.' && PartAt(f, 2 + |flags| + |width|, prec.value))
            && PartAt(f, 1 + |flags| + |width| + p, length)
  {
    var p := if prec.None? then [] else ['.'] + prec.value;
    assert f == ['%'] + flags + width + p + length + [c];
  }

  /** The character that follows: the next part that is not empty begins with it. */
  lemma {:induction false} Following(flags: seq<char>, width: seq<char>, prec: Option<seq<char>>, length: seq<char>,
                                     c: char, f: seq<char>)
    requires f == Spelled(flags, width, prec, length, c) && WellSpelled(flags, width, prec, length, c)
    ensures var i := 1 + |flags|; var j := i + |width|; var k := j + if prec.None? then 0 else 1 + |prec.value|;
            && k + |length| < |f|
            && !IsFlag(f[i]) && DigitValue(f[j]) >= 10 && f[j] != '*' && DigitValue(f[k]) >= 10 && f[k] != '*'
            && (prec.None? ==> f[j] != '.') && f[k + |length|] !in {'h', 'l', 'j', 'z', 't'}
  {
    PartsLie(flags, width, prec, length, c, f);
    var i := 1 + |flags|;
    var j := i + |width|;
    var k := j + if prec.None? then 0 else 1 + |prec.value|;
    if width != [] { assert f[i] == width[0]; }
    if length != [] { assert f[k] == length[0]; }
  }

  lemma {:induction false} HeadRead(f: seq<char>, args: seq<Arg>, flags: seq<char>, width: seq<char>, s: Spec)
    requires PartAt(f, 1, flags) && !IsFlag(At(f, 1 + |flags|)) && PartAt(f, 1 + |flags|, width) && Decimal(width)
    requires forall k :: 0 <= k < |flags| ==> flags[k] in {'0', '-', '+', ' ', '#'}
    requires DigitValue(At(f, 1 + |flags| + |width|)) >= 10 && At(f, 1 + |flags| + |width|) != '*'
    requires s == Spec(1 + |flags| + |width|, 0, WithFlags(NO_FLAGS, flags), Value(width, 0, |width|, 10) % WORD32, 0)
    ensures ReadWidth(f, args, ReadFlags(f, Spec(1, 0, NO_FLAGS, 0, 0))) == Some(s)
  {
    FlagsRead(f, Spec(1, 0, NO_FLAGS, 0, 0), flags);
    WidthRead(f, args, Spec(1 + |flags|, 0, WithFlags(NO_FLAGS, flags), 0, 0), width);
  }

  /** Precision, length and conversion behind what HeadRead has read. */
  lemma {:induction false} TailRead(f: seq<char>, args: seq<Arg>, s: Spec, s2: Spec, s3: Spec)
    requires |f| > 0 && ReadWidth(f, args, ReadFlags(f, Spec(1, 0, NO_FLAGS, 0, 0))) == Some(s)
    requires s.i <= |f| && ReadPrecision(f, args, s) == Some(s2) && s2.i <= |f| && ReadLength(f, s2) == s3 && s3.i < |f|
    ensures ReadDirective(f, 1, args, 0) == Some(s3)
  {
  }

  /** The flags that a directive spells. */
  function SpelledFlags(flags: seq<char>, precise: bool, length: seq<char>): Flags {
    Flags(zero := '0' in flags, left := '-' in flags, plus := '+' in flags, space := ' ' in flags, hash := '#' in flags,
          upper := false, tiny := length == "hh", short := length == "h" || length == "hh",
          long := length in {"l", "ll", "j", "z", "t"}, longLong := length == "ll", precise := precise)
  }

  function Read(digits: seq<char>): nat { Value(digits, 0, |digits|, 10) % 0x1_0000_0000 }

  lemma {:induction false} PrecisionThenLength(f: seq<char>, args: seq<Arg>, s: Spec, flags: seq<char>,
                                               prec: Option<seq<char>>, length: seq<char>, j: nat)
    requires s.prec == 0 && s.flags == SpelledFlags(flags, false, "") && s.i <= |f|
    requires j == s.i + if prec.None? then 0 else 1 + |prec.value|
    requires prec.None? ==> At(f, s.i) != '.'
    requires prec.Some? ==> s.i < |f| && f[s.i] == '.' && PartAt(f, s.i + 1, prec.value) && Decimal(prec.value)
    requires j + |length| < |f| && DigitValue(f[j]) >= 10 && f[j] != '*' && PartAt(f, j, length)
    requires length in {"", "h", "hh", "l", "ll", "j", "z", "t"} && f[j + |length|] !in {'h', 'l', 'j', 'z', 't'}
    ensures var p := if prec.None? then 0 else Read(prec.value);
            && ReadPrecision(f, args, s) == Some(Spec(j, s.a, SpelledFlags(flags, prec.Some?, ""), s.width, p))
            && ReadLength(f, Spec(j, s.a, SpelledFlags(flags, prec.Some?, ""), s.width, p))
               == Spec(j + |length|, s.a, SpelledFlags(flags, prec.Some?, length), s.width, p)
  {
    var p := if prec.None? then 0 else Read(prec.value);
    PrecisionRead(f, args, s, prec);
    LengthRead(f, Spec(j, s.a, SpelledFlags(flags, prec.Some?, ""), s.width, p), length);
  }

  /** The parts lie one after the other in f, up to the conversion: the width ends at i, the precision at j. */
  ghost predicate Laid(f: seq<char>, flags: seq<char>, width: seq<char>, prec: Option<seq<char>>, length: seq<char>,
                       i: nat, j: nat) {
    && |f| > 0 && PartAt(f, 1, flags) && PartAt(f, 1 + |flags|, width) && Decimal(width) && i == 1 + |flags| + |width|
    && (forall k :: 0 <= k < |flags| ==> flags[k] in {'0', '-', '+', ' ', '#'})
    && !IsFlag(At(f, 1 + |flags|)) && DigitValue(At(f, i)) >= 10 && At(f, i) != '*'
    && j == i + (if prec.None? then 0 else 1 + |prec.value|) && (prec.None? ==> At(f, i) != '.')
    && (prec.Some? ==> i < |f| && f[i] == '.' && PartAt(f, i + 1, prec.value) && Decimal(prec.value))
    && j + |length| < |f| && DigitValue(f[j]) >= 10 && f[j] != '*' && PartAt(f, j, length)
    && length in {"", "h", "hh", "l", "ll", "j", "z", "t"} && f[j + |length|] !in {'h', 'l', 'j', 'z', 't'}
  }

  lemma {:induction false} PartsRead(f: seq<char>, args: seq<Arg>, flags: seq<char>, width: seq<char>,
                                     prec: Option<seq<char>>, length: seq<char>, i: nat, j: nat, s3: Spec)
    requires Laid(f, flags, width, prec, length, i, j)
    requires s3 == Spec(j + |length|, 0, SpelledFlags(flags, prec.Some?, length), Read(width),
                        if prec.None? then 0 else Read(prec.value))
    ensures ReadDirective(f, 1, args, 0) == Some(s3)
  {
    var s, p := Spec(i, 0, SpelledFlags(flags, false, ""), Read(width), 0), if prec.None? then 0 else Read(prec.value);
    assert WithFlags(NO_FLAGS, flags) == SpelledFlags(flags, false, "");
    HeadRead(f, args, flags, width, s);
    PrecisionThenLength(f, args, s, flags, prec, length, j);
    TailRead(f, args, s, Spec(j, 0, SpelledFlags(flags, prec.Some?, ""), Read(width), p), s3);
  }

  lemma {:induction false} SpelledIsLaid(flags: seq<char>, width: seq<char>, prec: Option<seq<char>>, length: seq<char>,
                                         c: char, f: seq<char>) returns (i: nat, j: nat)
    requires f == Spelled(flags, width, prec, length, c) && WellSpelled(flags, width, prec, length, c)
    ensures Laid(f, flags, width, prec, length, i, j) && j + |length| == |f| - 1 && f[0] == '%' && f[|f| - 1] == c
  {
    PartsLie(flags, width, prec, length, c, f);
    Following(flags, width, prec, length, c, f);
    i := 1 + |flags| + |width|;
    j := i + if prec.None? then 0 else 1 + |prec.value|;
  }

  /** Every spelled directive is read as what it spells. */
  lemma {:induction false} DirectiveRead(flags: seq<char>, width: seq<char>, prec: Option<seq<char>>, length: seq<char>,
                                         c: char, args: seq<Arg>, f: seq<char>, s: Spec)
    requires f == Spelled(flags, width, prec, length, c) && WellSpelled(flags, width, prec, length, c)
    requires s == Spec(|f| - 1, 0, SpelledFlags(flags, prec.Some?, length), Read(width),
                       if prec.None? then 0 else Read(prec.value))
    ensures |f| > 0 && f[0] == '%' && f[|f| - 1] == c && ReadDirective(f, 1, args, 0) == Some(s)
  {
    var i, j := SpelledIsLaid(flags, width, prec, length, c, f);
    PartsRead(f, args, flags, width, prec, length, i, j, s);
  }

  /** A * takes its width from the arguments; a negative one counts as a - flag and its magnitude. */
  lemma {:induction false} StarWidthRead(f: seq<char>, args: seq<Arg>, s: Spec, w: int)
    requires s.i < |f| && f[s.i] == '*' && s.a < |args| && args[s.a].Word?
    requires -0x8000_0000 <= w < 0x8000_0000 && (args[s.a].bits - w) % 0x1_0000_0000 == 0
    ensures ReadWidth(f, args, s)
         == Some(s.(i := s.i + 1, a := s.a + 1, width := if w < 0 then -w else w,
                    flags := s.flags.(left := s.flags.left || w < 0)))
  {
    assert SignedBits(args[s.a].bits, WORD32) == w;
  }

  // -------------------------------------------------------------------- numbers

  /**
   Sign and digits in a field: at least prec digits, at least width
   characters, filled on the right, with zeros behind the sign, or in front.
   */
  function StandardNumber(digits: seq<char>, sign: seq<char>, prec: nat, width: nat, left: bool,
                          zero: bool): seq<char> {
    var body := Repeat('0', prec - |digits|) + digits;
    var n := width - |sign| - |body|;
    if left then sign + body + Repeat(' ', n)
    else if zero then sign + Repeat('0', n) + body
    else Repeat(' ', n) + sign + body
  }

  lemma {:induction false} SignPut(body: seq<char>, negative: bool, f: Flags, sign: seq<char>)
    requires sign == if negative then "-" else if f.plus then "+" else if f.space then " " else ""
    requires |body| < 32
    ensures Signed(body, negative, f) == sign + body
  {
    assert [] + body == body;
  }

  lemma {:induction false} FilledTwice(digits: seq<char>, prec: nat, w: nat)
    requires |digits| < 32 && prec < 32 && w < 32
    ensures var body := Repeat('0', prec - |digits|) + digits;
            ZeroFilled(digits, prec) == body && |body| < 32
            && ZeroFilled(body, w) == Repeat('0', w - |body|) + body && |ZeroFilled(body, w)| < 32
  {
  }

  lemma {:induction false} ZeroFilledMeetsStandard(digits: seq<char>, negative: bool, base: nat, prec: nat, width: nat,
                                                   f: Flags, sign: seq<char>)
    requires sign == if negative then "-" else if f.plus then "+" else if f.space then " " else ""
    requires !f.hash && !f.left && f.zero && |digits| < 32 && prec < 32 && width < 32
    ensures FormatNumber(digits, negative, base, prec, width, f)
         == StandardNumber(digits, sign, prec, width, false, true)
  {
    var w := ZeroWidth(negative, width, f);
    FilledTwice(digits, prec, w);
    var body := Repeat('0', prec - |digits|) + digits;
    SignPut(ZeroFilled(body, w), negative, f, sign);
    assert Repeat('0', w - |body|) == Repeat('0', width - |sign| - |body|);
    assert sign + (Repeat('0', w - |body|) + body) == sign + Repeat('0', w - |body|) + body;
  }

  lemma {:induction false} LeftMeetsStandard(digits: seq<char>, negative: bool, base: nat, prec: nat, width: nat,
                                             f: Flags, sign: seq<char>)
    requires sign == if negative then "-" else if f.plus then "+" else if f.space then " " else ""
    requires !f.hash && f.left && |digits| < 32 && prec <= |digits|
    ensures FormatNumber(digits, negative, base, prec, width, f)
         == StandardNumber(digits, sign, prec, width, true, f.zero)
  {
    SignPut(digits, negative, f, sign);
    assert Repeat('0', prec - |digits|) + digits == digits;
  }

  lemma {:induction false} RightMeetsStandard(digits: seq<char>, negative: bool, base: nat, prec: nat, width: nat,
                                              f: Flags, sign: seq<char>)
    requires sign == if negative then "-" else if f.plus then "+" else if f.space then " " else ""
    requires !f.hash && !f.left && !f.zero && |digits| < 32 && prec < 32
    ensures FormatNumber(digits, negative, base, prec, width, f)
         == StandardNumber(digits, sign, prec, width, false, false)
  {
    var body := Repeat('0', prec - |digits|) + digits;
    assert ZeroFilled(digits, prec) == body;
    SignPut(body, negative, f, sign);
    Regroup(Repeat(' ', width - |sign| - |body|), sign, body);
  }

  lemma {:induction false} Regroup(pad: seq<char>, sign: seq<char>, body: seq<char>)
    ensures pad + (sign + body) == pad + sign + body
  {
  }

  /** Below 32 characters, and without a precision that - would switch off, a number is printed as the standard says. */
  lemma {:induction false} NumberMeetsStandard(value: nat, negative: bool, base: nat, prec: nat, width: nat, f: Flags,
                                               digits: seq<char>, sign: seq<char>)
    requires IsBase(base) && !f.hash && |digits| < 32 && prec < 32
    requires digits == if f.precise && value == 0 then [] else Digits(value, base, f.upper)
    requires sign == if negative then "-" else if f.plus then "+" else if f.space then " " else ""
    requires (f.left ==> prec <= |digits|) && (!f.left && f.zero ==> width < 32)
    ensures NumberText(value, negative, base, prec, width, f)
         == StandardNumber(digits, sign, prec, width, f.left, f.zero)
  {
    assert f.(hash := false) == f && DigitText(value, base, f) == digits;
    if !f.left && f.zero {
      ZeroFilledMeetsStandard(digits, negative, base, prec, width, f, sign);
    } else if f.left {
      LeftMeetsStandard(digits, negative, base, prec, width, f, sign);
    } else {
      RightMeetsStandard(digits, negative, base, prec, width, f, sign);
    }
  }

  // ----------------------------------------------------------------- directives

  /** The flags that NtoaLong gets: what the conversion leaves of the spelled ones. */
  function NumberFlags(flags: seq<char>, precise: bool, length: seq<char>, c: char): Flags {
    SpelledFlags(flags, precise, length).(
      zero := '0' in flags && !precise, plus := c in {'d', 'i'} && '+' in flags,
      space := c in {'d', 'i'} && ' ' in flags,
      upper := c == 'X', hash := false)
  }

  lemma {:induction false} IntegerMeaning(flags: seq<char>, precise: bool, length: seq<char>, c: char, bits: nat,
                                          prec: nat, width: nat, m: nat, v: int, base: nat)
    requires '#' !in flags && length in {"", "h", "hh", "l", "ll", "j", "z", "t"}
    requires c in {'d', 'i', 'u', 'x', 'X', 'o', 'b'}
    requires m == if length == "hh" then 0x100 else if length == "h" then 0x1_0000
                  else if length == "" then 0x1_0000_0000 else 0x1_0000_0000_0000_0000
    requires v == if c in {'d', 'i'} && 2 * (bits % m) >= m then bits % m - m else bits % m
    requires base == if c in {'x', 'X'} then 16 else if c == 'o' then 8 else if c == 'b' then 2 else 10
    ensures IntegerText(c, bits, prec, width, SpelledFlags(flags, precise, length))
         == NumberText(if v < 0 then -v else v, v < 0, base, prec, width, NumberFlags(flags, precise, length, c))
  {
    var f, g := SpelledFlags(flags, precise, length), NumberFlags(flags, precise, length, c);
    FlagsLeft(flags, precise, length, c);
    TypeNamed(g, length, m);
    IntegerByType(c, bits, prec, width, f, g, m, v, base);
  }

  lemma {:induction false} IntegerByType(c: char, bits: nat, prec: nat, width: nat, f: Flags, g: Flags, m: nat, v: int,
                                         base: nat)
    requires c in {'d', 'i', 'u', 'x', 'X', 'o', 'b'} && IntegerFlags(c, f) == g && TypeModulus(g) == m > 0
    requires v == if c in {'d', 'i'} && 2 * (bits % m) >= m then bits % m - m else bits % m
    requires base == if c in {'x', 'X'} then 16 else if c == 'o' then 8 else if c == 'b' then 2 else 10
    ensures IntegerText(c, bits, prec, width, f) == NumberText(if v < 0 then -v else v, v < 0, base, prec, width, g)
  {
    if c in {'d', 'i'} {
      SignedReading(bits, m, v);
      SignedNumber(v, prec, width, g);
    } else {
      assert ConversionBase(c) == base;
    }
  }

  lemma {:induction false} SignedReading(bits: nat, m: nat, v: int)
    requires m > 0 && v == if 2 * (bits % m) >= m then bits % m - m else bits % m
    ensures SignedBits(bits, m) == v
  {
  }

  lemma {:induction false} SignedNumber(v: int, prec: nat, width: nat, g: Flags)
    ensures SignedText(v, prec, width, g) == NumberText(if v < 0 then -v else v, v < 0, 10, prec, width, g)
  {
  }

  lemma {:induction false} FlagsLeft(flags: seq<char>, precise: bool, length: seq<char>, c: char)
    requires '#' !in flags && c in {'d', 'i', 'u', 'x', 'X', 'o', 'b'}
    ensures IntegerFlags(c, SpelledFlags(flags, precise, length)) == NumberFlags(flags, precise, length, c)
  {
  }

  lemma {:induction false} TypeNamed(f: Flags, length: seq<char>, m: nat)
    requires length in {"", "h", "hh", "l", "ll", "j", "z", "t"}
    requires f.tiny == (length == "hh") && f.short == (length == "h" || length == "hh")
    requires f.long == (length in {"l", "ll", "j", "z", "t"}) && f.longLong == (length == "ll")
    requires m == if length == "hh" then 0x100 else if length == "h" then 0x1_0000
                  else if length == "" then 0x1_0000_0000 else 0x1_0000_0000_0000_0000
    ensures TypeModulus(f) == m
  {
  }

  /** A format that is one spelled directive prints what the directive renders. */
  lemma {:induction false} PrintedDirective(flags: seq<char>, width: seq<char>, prec: Option<seq<char>>,
                                            length: seq<char>, c: char, args: seq<Arg>, f: seq<char>, s: Spec,
                                            text: seq<char>)
    requires f == Spelled(flags, width, prec, length, c) && WellSpelled(flags, width, prec, length, c)
    requires s == Spec(|f| - 1, 0, SpelledFlags(flags, prec.Some?, length), Read(width),
                       if prec.None? then 0 else Read(prec.value))
    requires Render(c, s, args) == Some(text)
    ensures Printed(f, args) == Some(text)
  {
    DirectiveRead(flags, width, prec, length, c, args, f, s);
    L.OneDirective(f, args, s);
  }

  lemma {:induction false} RenderedNumber(c: char, s: Spec, bits: nat)
    requires c in {'d', 'i', 'u', 'x', 'X', 'o', 'b'} && s.a == 0
    ensures Render(c, s, [Word(bits)]) == Some(IntegerText(c, bits, s.prec, s.width, s.flags))
  {
  }

  lemma {:induction false} RenderedText(s: Spec, text: seq<char>, cut: seq<char>)
    requires s.a == 0 && cut == if s.flags.precise && s.prec < |text| then text[..s.prec] else text
    ensures Render('s', s, [Text(text)])
         == Some(if s.flags.left then cut + Repeat(' ', s.width - |cut|) else Repeat(' ', s.width - |cut|) + cut)
  {
  }

  lemma {:induction false} RenderedChar(s: Spec, bits: nat)
    requires s.a == 0
    ensures var c := [(bits % 256) as char];
            Render('c', s, [Word(bits)])
            == Some(if s.flags.left then c + Repeat(' ', s.width - 1) else Repeat(' ', s.width - 1) + c)
  {
  }

  lemma {:induction false} RenderedInteger(flags: seq<char>, precise: bool, length: seq<char>, c: char, bits: nat,
                                           m: nat, v: int, base: nat, digits: seq<char>, sign: seq<char>, w: nat,
                                           p: nat)
    requires c in {'d', 'i', 'u', 'x', 'X', 'o', 'b'} && '#' !in flags
    requires length in {"", "h", "hh", "l", "ll", "j", "z", "t"}
    requires m == if length == "hh" then 0x100 else if length == "h" then 0x1_0000
                  else if length == "" then 0x1_0000_0000 else 0x1_0000_0000_0000_0000
    requires v == if c in {'d', 'i'} && 2 * (bits % m) >= m then bits % m - m else bits % m
    requires base == if c in {'x', 'X'} then 16 else if c == 'o' then 8 else if c == 'b' then 2 else 10
    requires digits == if precise && v == 0 then [] else Digits(if v < 0 then -v else v, base, c == 'X')
    requires sign == if v < 0 then "-" else if c in {'d', 'i'} && '+' in flags then "+"
                     else if c in {'d', 'i'} && ' ' in flags then " " else ""
    requires |digits| < 32 && p < 32 && ('-' in flags ==> p <= |digits|)
    requires '-' !in flags && '0' in flags && !precise ==> w < 32
    ensures IntegerText(c, bits, p, w, SpelledFlags(flags, precise, length))
         == StandardNumber(digits, sign, p, w, '-' in flags, '0' in flags && !precise)
  {
    IntegerMeaning(flags, precise, length, c, bits, p, w, m, v, base);
    NumberMeetsStandard(if v < 0 then -v else v, v < 0, base, p, w, NumberFlags(flags, precise, length, c), digits,
                        sign);
  }

  /**
   Every integer directive without # prints what the standard says of its
   argument, reduced to the type that the length modifier names, as long as
   digits, precision and a zero-filled width stay below 32 and - comes with no
   precision beyond the digits.
   */
  lemma {:induction false} PrintedInteger(flags: seq<char>, width: seq<char>, prec: Option<seq<char>>,
                                          length: seq<char>, c: char, bits: nat, f: seq<char>, m: nat, v: int,
                                          base: nat, digits: seq<char>, sign: seq<char>, w: nat, p: nat)
    requires f == Spelled(flags, width, prec, length, c) && WellSpelled(flags, width, prec, length, c)
    requires c in {'d', 'i', 'u', 'x', 'X', 'o', 'b'} && '#' !in flags
    requires m == if length == "hh" then 0x100 else if length == "h" then 0x1_0000
                  else if length == "" then 0x1_0000_0000 else 0x1_0000_0000_0000_0000
    requires v == if c in {'d', 'i'} && 2 * (bits % m) >= m then bits % m - m else bits % m
    requires base == if c in {'x', 'X'} then 16 else if c == 'o' then 8 else if c == 'b' then 2 else 10
    requires digits == if prec.Some? && v == 0 then [] else Digits(if v < 0 then -v else v, base, c == 'X')
    requires sign == if v < 0 then "-" else if c in {'d', 'i'} && '+' in flags then "+"
                     else if c in {'d', 'i'} && ' ' in flags then " " else ""
    requires w == Value(width, 0, |width|, 10) % 0x1_0000_0000
    requires p == if prec.None? then 0 else Value(prec.value, 0, |prec.value|, 10) % 0x1_0000_0000
    requires |digits| < 32 && p < 32 && ('-' in flags ==> p <= |digits|)
    requires '-' !in flags && '0' in flags && prec.None? ==> w < 32
    ensures Printed(f, [Word(bits)])
         == Some(StandardNumber(digits, sign, p, w, '-' in flags, '0' in flags && prec.None?))
  {
    var s := Spec(|f| - 1, 0, SpelledFlags(flags, prec.Some?, length), w, p);
    RenderedInteger(flags, prec.Some?, length, c, bits, m, v, base, digits, sign, w, p);
    RenderedNumber(c, s, bits);
    PrintedDirective(flags, width, prec, length, c, [Word(bits)], f, s,
                     StandardNumber(digits, sign, p, w, '-' in flags, '0' in flags && prec.None?));
  }

  lemma {:induction false} HashedNumber(value: nat, base: nat, f: Flags, digits: seq<char>)
    requires IsBase(base) && f.hash && !f.zero && !f.left && !f.plus && !f.space && !f.precise
    requires digits == Digits(value, base, f.upper) && |digits| <= 30
    ensures NumberText(value, false, base, 0, 0, f)
         == (if value == 0 then "" else if base == 16 then (if f.upper then "0X" else "0x")
             else if base == 2 then "0b" else "0") + digits
  {
    var g := L.UsedFlags(value, f);
    assert DigitText(value, base, g) == digits && ZeroFilled(digits, 0) == digits;
    var t := Hashed(digits, base, 0, 0, g);
    assert Padded(t, 0, false) == t;
    PrefixPut(digits, base, g);
    assert [] + digits == digits;
  }

  lemma {:induction false} PrefixPut(digits: seq<char>, base: nat, f: Flags)
    requires |digits| <= 30
    ensures HashPrefix(digits, base, f)
         == (if base == 16 then (if f.upper then "0X" else "0x") else if base == 2 then "0b" else "0") + digits
  {
  }

  /** With # alone: the prefix 0x, 0X, 0b or 0 in front of a number that is not 0. */
  lemma {:induction false} PrintedAlternate(length: seq<char>, c: char, bits: nat, f: seq<char>, m: nat, base: nat,
                                            digits: seq<char>)
    requires f == Spelled("#", "", None, length, c) && WellSpelled("#", "", None, length, c)
    requires c in {'x', 'X', 'o', 'b'}
    requires m == if length == "hh" then 0x100 else if length == "h" then 0x1_0000
                  else if length == "" then 0x1_0000_0000 else 0x1_0000_0000_0000_0000
    requires base == if c in {'x', 'X'} then 16 else if c == 'o' then 8 else 2
    requires digits == Digits(bits % m, base, c == 'X') && |digits| <= 30
    ensures Printed(f, [Word(bits)])
         == Some((if bits % m == 0 then "" else if c == 'x' then "0x" else if c == 'X' then "0X"
                  else if c == 'b' then "0b" else "0") + digits)
  {
    var fl := SpelledFlags("#", false, length);
    var s := Spec(|f| - 1, 0, fl, 0, 0);
    RenderedNumber(c, s, bits);
    HashFlags(length, c, fl);
    TypeNamed(fl.(upper := c == 'X'), length, m);
    HashedNumber(bits % m, base, fl.(upper := c == 'X'), digits);
    PrintedDirective("#", "", None, length, c, [Word(bits)], f, s,
                     (if bits % m == 0 then "" else if c == 'x' then "0x" else if c == 'X' then "0X"
                      else if c == 'b' then "0b" else "0") + digits);
  }

  lemma {:induction false} HashFlags(length: seq<char>, c: char, f: Flags)
    requires c in {'x', 'X', 'o', 'b'} && f == SpelledFlags("#", false, length)
    ensures IntegerFlags(c, f) == f.(upper := c == 'X')
  {
  }

  /** A string, cut to the precision, in its field. */
  lemma {:induction false} PrintedString(flags: seq<char>, width: seq<char>, prec: Option<seq<char>>, length: seq<char>,
                                         s: seq<char>, f: seq<char>, cut: seq<char>, w: nat)
    requires f == Spelled(flags, width, prec, length, 's') && WellSpelled(flags, width, prec, length, 's')
    requires w == Value(width, 0, |width|, 10) % 0x1_0000_0000
    requires cut == if prec.None? then s
                    else var p := Value(prec.value, 0, |prec.value|, 10) % 0x1_0000_0000; if p < |s| then s[..p] else s
    ensures Printed(f, [Text(s)])
         == Some(if '-' in flags then cut + Repeat(' ', w - |cut|) else Repeat(' ', w - |cut|) + cut)
  {
    var d := Spec(|f| - 1, 0, SpelledFlags(flags, prec.Some?, length), w, if prec.None? then 0 else Read(prec.value));
    RenderedText(d, s, cut);
    PrintedDirective(flags, width, prec, length, 's', [Text(s)], f, d,
                     if '-' in flags then cut + Repeat(' ', w - |cut|) else Repeat(' ', w - |cut|) + cut);
  }

  /** A character in its field. */
  lemma {:induction false} PrintedChar(flags: seq<char>, width: seq<char>, prec: Option<seq<char>>, length: seq<char>,
                                       bits: nat, f: seq<char>, w: nat)
    requires f == Spelled(flags, width, prec, length, 'c') && WellSpelled(flags, width, prec, length, 'c')
    requires w == Value(width, 0, |width|, 10) % 0x1_0000_0000
    ensures var c := [(bits % 256) as char];
            Printed(f, [Word(bits)]) == Some(if '-' in flags then c + Repeat(' ', w - 1) else Repeat(' ', w - 1) + c)
  {
    var d := Spec(|f| - 1, 0, SpelledFlags(flags, prec.Some?, length), w, if prec.None? then 0 else Read(prec.value));
    RenderedChar(d, bits);
    var c := [(bits % 256) as char];
    PrintedDirective(flags, width, prec, length, 'c', [Word(bits)], f, d,
                     if '-' in flags then c + Repeat(' ', w - 1) else Repeat(' ', w - 1) + c);
  }

  /** %% prints a percent sign and takes no argument. */
  lemma {:induction false} PrintedPercent(args: seq<Arg>, f: seq<char>)
    requires f == "%%"
    ensures Printed(f, args) == Some("%")
  {
    assert f == Spelled("", "", None, "", '%');
    var d := Spec(1, 0, SpelledFlags("", false, ""), 0, 0);
    PrintedDirective("", "", None, "", '%', args, f, d, "%");
  }

  /** Any other character is printed itself, except for the floating-point conversions, which are left out. */
  lemma {:induction false} PrintedOther(c: char, args: seq<Arg>, f: seq<char>, s: Spec)
    requires f == ['%', c] && !('0' <= c <= '9') && c !in {'-', '+', ' ', '#', '*', '.', 'h', 'l', 'j', 'z', 't'}
    requires c !in {'d', 'i', 'u', 'x', 'X', 'o', 'b', 'c', 's', 'p'}
    requires s == Spec(1, 0, SpelledFlags("", false, ""), 0, 0)
    ensures Printed(f, args) == if c in {'f', 'F', 'e', 'E', 'g', 'G'} then None else Some([c])
  {
    assert ReadDirective(f, 1, args, 0) == Some(s);
    L.OneDirective(f, args, s);
  }

  /** Text without a percent sign is printed as it is. */
  lemma {:induction false} PrintedLiteral(f: seq<char>, i: nat, args: seq<Arg>, a: nat)
    requires i <= |f| && forall k :: i <= k < |f| ==> f[k] != '%'
    ensures Output(Render, f, i, args, a) == Some(f[i..])
    decreases |f| - i
  {
    if i < |f| {
      PrintedLiteral(f, i + 1, args, a);
      assert f[i..] == [f[i]] + f[i + 1..];
    }
  }

  /** After a directive the output goes on behind it, with the next argument for every conversion that takes one. */
  lemma {:induction false} PrintedInOrder(render: Renderer, f: seq<char>, i: nat, args: seq<Arg>, a: nat, s: Spec,
                                          text: seq<char>, rest: seq<char>, n: nat)
    requires i < |f| && f[i] == '%' && ReadDirective(f, i + 1, args, a) == Some(s)
    requires n == if f[s.i] in {'d', 'i', 'u', 'x', 'X', 'o', 'b', 'c', 's', 'p'} then s.a + 1 else s.a
    requires render(f[s.i], s, args) == Some(text) && Output(render, f, s.i + 1, args, n) == Some(rest)
    ensures Output(render, f, i, args, a) == Some(text + rest)
  {
    NextArgument(f[s.i], s.a);
  }

  lemma {:induction false} NextArgument(c: char, a: nat)
    ensures ArgumentsAfter(c, a) == if c in {'d', 'i', 'u', 'x', 'X', 'o', 'b', 'c', 's', 'p'} then a + 1 else a
  {
  }
}
