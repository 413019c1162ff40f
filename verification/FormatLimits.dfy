/**
 Where conversions differ from what the C standard promises of a sign, a
 precision and a width: digits, zeros, prefix and sign share a buffer of 32
 characters, the - flag switches filling off, and a negative * precision
 counts as 0 instead of as omitted.
 */
module FormatLimits {
  import opened Numerals
  import opened FormatText
  import opened Options

  /** The flags a value is printed with: no # for 0. */
  function UsedFlags(value: nat, flags: Flags): Flags {
    if value == 0 then flags.(hash := false) else flags
  }

  /** Digits, zero fill and prefix: everything before the sign is put in front. */
  function Body(value: nat, negative: bool, base: nat, prec: nat, width: nat, flags: Flags): seq<char>
    requires IsBase(base)
  {
    var f := UsedFlags(value, flags);
    Hashed(Filled(DigitText(value, base, f), negative, prec, width, f), base, prec, ZeroWidth(negative, width, f), f)
  }

  function Max(a: nat, b: nat): nat {
    if a < b then b else a
  }

  function Capped(n: nat): nat {
    if n < NTOA_BUFFER then n else NTOA_BUFFER
  }

  /** Without # the length of the body follows from the number of digits, the precision and the width. */
  lemma {:induction false} BodyLength(value: nat, negative: bool, base: nat, prec: nat, width: nat, flags: Flags)
    requires IsBase(base) && !flags.hash
    ensures var d := |DigitText(value, base, flags)|;
            |Body(value, negative, base, prec, width, flags)|
            == if flags.left then d
               else Max(Max(d, Capped(prec)), if flags.zero then Capped(ZeroWidth(negative, width, flags)) else 0)
    ensures |DigitText(value, base, flags)|
         == if flags.precise && value == 0 then 0 else Capped(|Digits(value, base, flags.upper)|)
  {
    assert UsedFlags(value, flags) == flags;
  }

  // ------------------------------------------------------------------- the sign

  lemma {:induction false} RepeatOnly(c: char, n: int)
    ensures forall x :: x in Repeat(c, n) ==> x == c
  {
    if n > 0 { RepeatOnly(c, n - 1); }
  }

  lemma {:induction false} RepeatAt(c: char, n: int, k: nat)
    requires k < n
    ensures Repeat(c, n)[k] == c
  {
    RepeatOnly(c, n);
    assert Repeat(c, n)[k] in Repeat(c, n);
  }

  /** Digits, zero fill and prefix are digits and letters. */
  lemma {:induction false} BodyHasNoSign(value: nat, negative: bool, base: nat, prec: nat, width: nat, flags: Flags)
    requires IsBase(base)
    ensures forall c :: c in Body(value, negative, base, prec, width, flags) ==> DigitValue(c) < 36
  {
    var f := UsedFlags(value, flags);
    var t := Filled(DigitText(value, base, f), negative, prec, width, f);
    FilledIsDigits(value, negative, base, prec, width, f);
    PrefixHasNoSign(t, base, prec, ZeroWidth(negative, width, f), f);
  }

  lemma {:induction false} PrefixHasNoSign(text: seq<char>, base: nat, prec: nat, width: nat, flags: Flags)
    requires forall c :: c in text ==> DigitValue(c) < 36
    ensures forall c :: c in Hashed(text, base, prec, width, flags) ==> DigitValue(c) < 36
  {
    var cut := text[TakenBack(|text|, base, prec, width, flags)..];
    assert forall c :: c in cut ==> c in text;
  }

  lemma {:induction false} PaddingHasNoSign(text: seq<char>, width: nat, left: bool, sign: char)
    requires sign != ' '
    ensures sign in Padded(text, width, left) <==> sign in text
  {
    RepeatOnly(' ', width - |text|);
  }

  /** What is printed is the signed body, padded with spaces unless zeros fill the width. */
  lemma {:induction false} TextOfBody(value: nat, negative: bool, base: nat, prec: nat, width: nat, flags: Flags,
                                      f: Flags)
    requires IsBase(base) && f == UsedFlags(value, flags)
    ensures var text := Signed(Body(value, negative, base, prec, width, flags), negative, f);
            NumberText(value, negative, base, prec, width, flags)
            == if !f.left && f.zero then text else Padded(text, ZeroWidth(negative, width, f), f.left)
  {
  }

  /**
   The sign of a negative number, or the + asked for, is shown exactly when the
   body takes fewer than 32 characters.
   */
  lemma {:induction false} SignShownExactly(value: nat, negative: bool, base: nat, prec: nat, width: nat, flags: Flags,
                                            sign: char)
    requires IsBase(base) && (negative || flags.plus) && sign == if negative then '-' else '+'
    ensures sign in NumberText(value, negative, base, prec, width, flags)
       <==> |Body(value, negative, base, prec, width, flags)| < NTOA_BUFFER
  {
    var f, body := UsedFlags(value, flags), Body(value, negative, base, prec, width, flags);
    BodyHasNoSign(value, negative, base, prec, width, flags);
    var text := Signed(body, negative, f);
    assert sign in text <==> |body| < NTOA_BUFFER;
    PaddingHasNoSign(text, ZeroWidth(negative, width, f), f.left, sign);
    TextOfBody(value, negative, base, prec, width, flags, f);
  }

  /** The space asked for in front is there exactly when the body leaves room for it, or the field is wider than 32. */
  lemma {:induction false} SpaceShownExactly(value: nat, base: nat, prec: nat, width: nat, flags: Flags)
    requires IsBase(base) && flags.space && !flags.plus
    ensures [' '] <= NumberText(value, false, base, prec, width, flags)
       <==> || |Body(value, false, base, prec, width, flags)| < NTOA_BUFFER
            || (!flags.left && !flags.zero && width > NTOA_BUFFER)
  {
    var f, body := UsedFlags(value, flags), Body(value, false, base, prec, width, flags);
    BodyHasNoSign(value, false, base, prec, width, flags);
    SpaceInFront(body, ZeroWidth(false, width, f), f);
    TextOfBody(value, false, base, prec, width, flags, f);
  }

  lemma {:induction false} SpaceInFront(body: seq<char>, width: nat, flags: Flags)
    requires flags.space && !flags.plus && |body| <= NTOA_BUFFER && forall c :: c in body ==> DigitValue(c) < 36
    ensures [' '] <= Signed(body, false, flags) <==> |body| < NTOA_BUFFER
    ensures [' '] <= Padded(Signed(body, false, flags), width, flags.left)
       <==> |body| < NTOA_BUFFER || (!flags.left && width > NTOA_BUFFER)
  {
    assert |body| > 0 ==> body[0] in body;
    var text := Signed(body, false, flags);
    if |text| < width { RepeatAt(' ', width - |text|, 0); }
    assert Padded(text, width, true)[..|text|] == text;
  }

  /** "%.40d" of -1 prints 32 characters and no sign. */
  lemma {:induction false} SignDropped(flags: Flags)
    requires flags == NO_FLAGS.(precise := true)
    ensures '-' !in IntegerText('d', 0xFFFF_FFFF, 40, 0, flags)
  {
    assert IntegerFlags('d', flags) == flags && SignedBits(0xFFFF_FFFF, WORD32) == -1;
    BodyLength(1, true, 10, 40, 0, flags);
    SignShownExactly(1, true, 10, 40, 0, flags, '-');
  }

  /** "%+.32d" of 1 prints 32 digits and no +. */
  lemma {:induction false} PlusDropped(flags: Flags)
    requires flags == NO_FLAGS.(plus := true, precise := true)
    ensures '+' !in IntegerText('d', 1, 32, 0, flags)
  {
    assert IntegerFlags('d', flags) == flags && SignedBits(1, WORD32) == 1;
    BodyLength(1, false, 10, 32, 0, flags);
    SignShownExactly(1, false, 10, 32, 0, flags, '+');
  }

  // ------------------------------------------------------------------ precision

  /** How many characters of s are digits of the base. */
  function CountDigits(s: seq<char>, base: nat): nat {
    if s == [] then 0 else CountDigits(s[..|s| - 1], base) + if DigitValue(s[|s| - 1]) < base then 1 else 0
  }

  lemma {:induction false} CountConcat(a: seq<char>, b: seq<char>, base: nat)
    ensures CountDigits(a + b, base) == CountDigits(a, base) + CountDigits(b, base)
    decreases |b|
  {
    if b == [] {
      assert a + b == a;
    } else {
      var n := |b| - 1;
      CountConcat(a, b[..n], base);
      assert (a + b)[..|a| + n] == a + b[..n];
    }
  }

  lemma {:induction false} CountUniform(s: seq<char>, base: nat, digits: bool)
    requires forall c :: c in s ==> (DigitValue(c) < base <==> digits)
    ensures CountDigits(s, base) == if digits then |s| else 0
    decreases |s|
  {
    if s != [] {
      CountUniform(s[..|s| - 1], base, digits);
      assert s[|s| - 1] in s;
    }
  }

  lemma {:induction false} FilledIsDigits(value: nat, negative: bool, base: nat, prec: nat, width: nat, flags: Flags)
    requires IsBase(base)
    ensures forall c :: c in Filled(DigitText(value, base, flags), negative, prec, width, flags) ==>
      DigitValue(c) < base
  {
    var d := DigitText(value, base, flags);
    var all := Digits(value, base, flags.upper);
    DigitsValue(value, base, flags.upper);
    assert forall k :: 0 <= k < |all| ==> DigitValue(all[k]) < base;
    assert forall c :: c in d ==> DigitValue(c) < base;
    RepeatOnly('0', Capped(prec) - |d|);
    var t := ZeroFilled(d, prec);
    RepeatOnly('0', Capped(ZeroWidth(negative, width, flags)) - |t|);
  }

  /** Sign and padding are no digits: what is printed has as many digits as the filled digits. */
  lemma {:induction false} DigitsPrinted(value: nat, negative: bool, base: nat, prec: nat, width: nat, flags: Flags)
    requires IsBase(base) && !flags.hash
    ensures CountDigits(NumberText(value, negative, base, prec, width, flags), base)
         == |Filled(DigitText(value, base, flags), negative, prec, width, flags)|
  {
    assert UsedFlags(value, flags) == flags;
    var body := Filled(DigitText(value, base, flags), negative, prec, width, flags);
    FilledIsDigits(value, negative, base, prec, width, flags);
    CountUniform(body, base, true);
    var text := Signed(body, negative, flags);
    SignCountsNothing(body, negative, base, flags);
    PadCountsNothing(text, ZeroWidth(negative, width, flags), flags.left, base);
  }

  lemma {:induction false} SignCountsNothing(body: seq<char>, negative: bool, base: nat, flags: Flags)
    requires IsBase(base)
    ensures CountDigits(Signed(body, negative, flags), base) == CountDigits(body, base)
  {
    if Signed(body, negative, flags) != body {
      var sign := [Signed(body, negative, flags)[0]];
      assert Signed(body, negative, flags) == sign + body;
      CountConcat(sign, body, base);
      CountUniform(sign, base, false);
    }
  }

  lemma {:induction false} PadCountsNothing(text: seq<char>, width: nat, left: bool, base: nat)
    requires IsBase(base)
    ensures CountDigits(Padded(text, width, left), base) == CountDigits(text, base)
  {
    var pad := Repeat(' ', width - |text|);
    RepeatOnly(' ', width - |text|);
    CountUniform(pad, base, false);
    CountConcat(text, pad, base);
    CountConcat(pad, text, base);
  }

  /** At least `prec` digits are printed exactly when the value has them, or without - and up to 32. */
  lemma {:induction false} PrecisionExactly(value: nat, negative: bool, base: nat, prec: nat, width: nat, flags: Flags)
    requires IsBase(base) && !flags.hash
    ensures CountDigits(NumberText(value, negative, base, prec, width, flags), base) >= prec
       <==> |DigitText(value, base, flags)| >= prec || (!flags.left && prec <= NTOA_BUFFER)
  {
    DigitsPrinted(value, negative, base, prec, width, flags);
  }

  /** "%-.5d" of 3 prints one digit. */
  lemma {:induction false} PrecisionIgnored(flags: Flags)
    requires flags == NO_FLAGS.(left := true, precise := true)
    ensures IntegerText('d', 3, 5, 0, flags) == "3"
  {
    assert IntegerFlags('d', flags) == flags && SignedBits(3, WORD32) == 3;
    assert Digits(3, 10, false) == ['3'];
    assert Padded("3", 0, true) == "3";
  }

  // ---------------------------------------------------------------------- width

  /** The field width is reached exactly when it is filled with spaces, or is at most 32. */
  lemma {:induction false} WidthExactly(value: nat, negative: bool, base: nat, prec: nat, width: nat, flags: Flags)
    requires IsBase(base) && !flags.hash
    ensures |NumberText(value, negative, base, prec, width, flags)| >= width
       <==> flags.left || !flags.zero || width <= NTOA_BUFFER
  {
    assert UsedFlags(value, flags) == flags;
    BodyLength(value, negative, base, prec, width, flags);
  }

  /** "%040u" of 1 prints 32 characters. */
  lemma {:induction false} WidthCut(flags: Flags)
    requires flags == NO_FLAGS.(zero := true)
    ensures |IntegerText('u', 1, 0, 40, flags)| == 32
  {
    assert IntegerFlags('u', flags) == flags;
    BodyLength(1, false, 10, 0, 40, flags);
  }

  // --------------------------------------------------------- negative precision

  /** A negative * precision is recorded as precision 0, where the standard takes it as if it were omitted. */
  lemma {:induction false} NegativePrecisionRead(f: seq<char>, args: seq<Arg>, s: Spec)
    requires s.i + 1 < |f| && f[s.i] == '.' && f[s.i + 1] == '*'
    requires s.a < |args| && args[s.a].Word? && SignedBits(args[s.a].bits, WORD32) < 0
    ensures ReadPrecision(f, args, s) == Some(Spec(s.i + 2, s.a + 1, s.flags.(precise := true), s.width, 0))
  {
  }

  /** The text of a number whose precision counts as 0, or as omitted. */
  function WithPrecision(precise: bool, value: nat, negative: bool, base: nat, width: nat, flags: Flags): seq<char>
    requires IsBase(base)
  {
    NumberText(value, negative, base, 0, width, flags.(precise := precise, zero := flags.zero && !precise))
  }

  /** Precision 0 prints what no precision prints exactly for a number that is not 0 and has no zeros filled in. */
  lemma {:induction false} NegativePrecisionExactly(value: nat, negative: bool, base: nat, width: nat, flags: Flags)
    requires IsBase(base) && !flags.hash
    ensures WithPrecision(true, value, negative, base, width, flags)
            == WithPrecision(false, value, negative, base, width, flags)
       <==> && value != 0
            && (flags.left || !flags.zero
                || |Signed(DigitText(value, base, flags.(precise := false)), negative, flags)| >= width)
  {
    var with, without := flags.(precise := true, zero := false), flags.(precise := false);
    if value == 0 {
      NoDigit(negative, base, width, with);
      SomeDigit(negative, base, width, without);
    } else {
      NonzeroPrecision(value, negative, base, width, with, without, DigitText(value, base, without));
    }
  }

  lemma {:induction false} NonzeroPrecision(value: nat, negative: bool, base: nat, width: nat,
                                            with: Flags, without: Flags, digits: seq<char>)
    requires IsBase(base) && value != 0 && !with.hash && with.precise && !with.zero && !without.precise
    requires without == with.(precise := false, zero := without.zero) && digits == DigitText(value, base, without)
    ensures NumberText(value, negative, base, 0, width, with) == NumberText(value, negative, base, 0, width, without)
       <==> without.left || !without.zero || |Signed(digits, negative, without)| >= width
  {
    PreciseText(value, negative, base, width, with, digits);
    ImpreciseText(value, negative, base, width, without, digits);
    var text := Signed(digits, negative, without);
    assert Signed(digits, negative, with) == text;
    if !without.left && without.zero {
      FilledIsDigits(value, negative, base, 0, 0, without.(left := true));
      FillingShows(digits, negative, width, without);
    }
  }

  /** 0 with precision 0 has no digit, */
  lemma {:induction false} NoDigit(negative: bool, base: nat, width: nat, f: Flags)
    requires IsBase(base) && !f.hash && f.precise && !f.zero
    ensures CountDigits(NumberText(0, negative, base, 0, width, f), base) == 0
  {
    DigitsPrinted(0, negative, base, 0, width, f);
  }

  /** without a precision it has one. */
  lemma {:induction false} SomeDigit(negative: bool, base: nat, width: nat, f: Flags)
    requires IsBase(base) && !f.hash && !f.precise
    ensures CountDigits(NumberText(0, negative, base, 0, width, f), base) > 0
  {
    DigitsPrinted(0, negative, base, 0, width, f);
    BodyLength(0, negative, base, 0, width, f);
  }

  lemma {:induction false} PreciseText(value: nat, negative: bool, base: nat, width: nat, f: Flags, digits: seq<char>)
    requires IsBase(base) && !f.hash && f.precise && !f.zero && value != 0 && digits == DigitText(value, base, f)
    ensures NumberText(value, negative, base, 0, width, f) == Padded(Signed(digits, negative, f), width, f.left)
  {
    assert ZeroFilled(digits, 0) == digits;
    TextOfBody(value, negative, base, 0, width, f, f);
  }

  lemma {:induction false} ImpreciseText(value: nat, negative: bool, base: nat, width: nat, f: Flags, digits: seq<char>)
    requires IsBase(base) && !f.hash && !f.precise && value != 0 && digits == DigitText(value, base, f)
    ensures NumberText(value, negative, base, 0, width, f)
         == if !f.left && f.zero then Signed(ZeroFilled(digits, ZeroWidth(negative, width, f)), negative, f)
            else Padded(Signed(digits, negative, f), width, f.left)
  {
    assert ZeroFilled(digits, 0) == digits;
    TextOfBody(value, negative, base, 0, width, f, f);
  }

  /** Zero fill of a field is told from spaces exactly when it fills something. */
  lemma {:induction false} FillingShows(digits: seq<char>, negative: bool, width: nat, flags: Flags)
    requires 0 < |digits| <= NTOA_BUFFER && forall c :: c in digits ==> DigitValue(c) < 36
    requires !flags.left && flags.zero
    ensures Padded(Signed(digits, negative, flags), width, false)
            == Signed(ZeroFilled(digits, ZeroWidth(negative, width, flags)), negative, flags)
       <==> |Signed(digits, negative, flags)| >= width
  {
    var text, n := Signed(digits, negative, flags), Capped(ZeroWidth(negative, width, flags)) - |digits|;
    var pad, zeros := Repeat(' ', width - |text|), Repeat('0', n);
    if |text| >= width {
      assert pad == [] && zeros == [];
      assert pad + text == text && zeros + digits == digits;
    } else {
      RepeatAt(' ', width - |text|, 0);
      if n > 0 {
        RepeatAt('0', n, 0);
        var spaced, filled := pad + text, zeros + digits;
        assert spaced[0] == ' ' && filled[0] == '0';
        var shown := Signed(filled, negative, flags);
        assert shown[0] == '0' || shown[1] == '0';
        if |pad| > 1 { RepeatAt(' ', width - |text|, 1); }
        assert spaced[1] == if |pad| > 1 then pad[1] else text[0];
      }
    }
  }

  /** For a string: exactly when it consists of spaces and is no longer than the field. */
  lemma {:induction false} NegativePrecisionOfString(s: seq<char>, width: nat, flags: Flags)
    ensures StringText(s, 0, width, flags.(precise := true)) == StringText(s, 0, width, flags.(precise := false))
       <==> |s| <= width && forall c :: c in s ==> c == ' '
  {
    var pad, all := Repeat(' ', width - |s|), Repeat(' ', width);
    RepeatOnly(' ', width - |s|);
    RepeatOnly(' ', width);
    assert StringText(s, 0, width, flags.(precise := true)) == all;
    var text := StringText(s, 0, width, flags.(precise := false));
    assert text == if flags.left then s + pad else pad + s;
    if |s| <= width && forall c :: c in s ==> c == ' ' {
      AllSpaces(text, all);
    }
    assert forall c :: c in s ==> c in text;
  }

  lemma {:induction false} AllSpaces(a: seq<char>, b: seq<char>)
    requires |a| == |b| && (forall c :: c in a ==> c == ' ') && forall c :: c in b ==> c == ' '
    ensures a == b
  {
    forall k | 0 <= k < |a|
      ensures a[k] == b[k]
    {
      assert a[k] in a && b[k] in b;
    }
  }

  lemma {:induction false} NegativeStarRead(f: seq<char>, args: seq<Arg>)
    requires |f| == 4 && f[0] == '%' && f[1] == '.' && f[2] == '*' && (f[3] == 'd' || f[3] == 's')
    requires |args| == 2 && args[0].Word? && SignedBits(args[0].bits, WORD32) < 0
    ensures ReadDirective(f, 1, args, 0) == Some(Spec(3, 1, NO_FLAGS.(precise := true), 0, 0))
  {
    var s := Spec(1, 0, NO_FLAGS, 0, 0);
    assert ReadWidth(f, args, ReadFlags(f, s)) == Some(s);
    NegativePrecisionRead(f, args, s);
  }

  /** A format that is one directive prints what the directive prints. */
  lemma {:induction false} OneDirective(f: seq<char>, args: seq<Arg>, s: Spec)
    requires |f| > 0 && f[0] == '%' && ReadDirective(f, 1, args, 0) == Some(s) && s.i + 1 == |f|
    ensures Printed(f, args) == Render(f[s.i], s, args)
  {
    var text, rest := Render(f[s.i], s, args), Output(Render, f, |f|, args, ArgumentsAfter(f[s.i], s.a));
    assert rest == Some([]);
    if text.Some? { assert text.value + [] == text.value; }
  }

  /** "%.*d" of -1 and 0 prints nothing. */
  lemma {:induction false} NegativePrecisionOfZero(f: seq<char>)
    requires f == "%.*d"
    ensures Printed(f, [Word(0xFFFF_FFFF), Word(0)]) == Some("")
  {
    NegativeStarRead(f, [Word(0xFFFF_FFFF), Word(0)]);
    OneDirective(f, [Word(0xFFFF_FFFF), Word(0)], Spec(3, 1, NO_FLAGS.(precise := true), 0, 0));
    BodyLength(0, false, 10, 0, 0, NO_FLAGS.(precise := true));
  }

  /** "%.*s" of -1 and abc prints nothing. */
  lemma {:induction false} NegativePrecisionOfText(f: seq<char>)
    requires f == "%.*s"
    ensures Printed(f, [Word(0xFFFF_FFFF), Text("abc")]) == Some("")
  {
    NegativeStarRead(f, [Word(0xFFFF_FFFF), Text("abc")]);
    OneDirective(f, [Word(0xFFFF_FFFF), Text("abc")], Spec(3, 1, NO_FLAGS.(precise := true), 0, 0));
  }
}
