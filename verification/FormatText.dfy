/**
 What a printf format and its arguments stand for: the unbounded text, as a
 function.  Directives are read as %[flags][width][.precision][length]conversion;
 a text exists for every format that does not end inside a directive, has no
 floating-point conversion and finds its arguments.
 */
module FormatText {
  import opened Numerals
  import opened Options

  const WORD32: nat := 0x1_0000_0000
  const NTOA_BUFFER: nat := 32

  datatype Flags = Flags(zero: bool, left: bool, plus: bool, space: bool, hash: bool, upper: bool,
                         tiny: bool, short: bool, long: bool, longLong: bool, precise: bool)

  const NO_FLAGS: Flags := Flags(false, false, false, false, false, false, false, false, false, false, false)

  /** A variadic slot: eight bytes, or a pointer to a C string. */
  datatype Arg = Word(bits: nat) | Text(chars: seq<char>)

  // ------------------------------------------------------------------- padding

  function Repeat(c: char, n: int): (s: seq<char>)
    ensures |s| == if n <= 0 then 0 else n
  {
    if n <= 0 then [] else Repeat(c, n - 1) + [c]
  }

  function Padded(text: seq<char>, width: nat, left: bool): (s: seq<char>)
    ensures |s| == if |text| < width then width else |text|
  {
    var pad := Repeat(' ', width - |text|);
    if left then text + pad else pad + text
  }

  // ------------------------------------------------------------------- numbers

  /** The digits the 32-character buffer holds: the low ones. */
  function DigitText(value: nat, base: nat, flags: Flags): (s: seq<char>)
    requires IsBase(base)
    ensures |s| <= NTOA_BUFFER
  {
    if flags.precise && value == 0 then []
    else
      var d := Digits(value, base, flags.upper);
      if |d| <= NTOA_BUFFER then d else d[|d| - NTOA_BUFFER..]
  }

  /** Leading zeros up to n characters, as far as the buffer allows. */
  function ZeroFilled(text: seq<char>, n: nat): (s: seq<char>)
    ensures |text| <= NTOA_BUFFER ==> |s| <= NTOA_BUFFER
  {
    Repeat('0', (if n < NTOA_BUFFER then n else NTOA_BUFFER) - |text|) + text
  }

  /** The width that zeros may fill: one less when a sign follows. */
  function ZeroWidth(negative: bool, width: nat, flags: Flags): nat {
    if !flags.left && width > 0 && flags.zero && (negative || flags.plus || flags.space) then width - 1 else width
  }

  function Filled(text: seq<char>, negative: bool, prec: nat, width: nat, flags: Flags): (s: seq<char>)
    ensures |text| <= NTOA_BUFFER ==> |s| <= NTOA_BUFFER
  {
    if flags.left then text
    else
      var t := ZeroFilled(text, prec);
      if flags.zero then ZeroFilled(t, ZeroWidth(negative, width, flags)) else t
  }

  function Prepend(c: char, text: seq<char>): (s: seq<char>)
    ensures |text| <= NTOA_BUFFER ==> |s| <= NTOA_BUFFER
  {
    if |text| < NTOA_BUFFER then [c] + text else text
  }

  /** How many filled zeros the # flag takes back to make room. */
  function TakenBack(len: nat, base: nat, prec: nat, width: nat, flags: Flags): (n: nat)
    ensures n <= len
  {
    if !flags.precise && len > 0 && (len == prec || len == width) then (if len > 1 && base == 16 then 2 else 1) else 0
  }

  /** 0x, 0X, 0b or 0. */
  function HashPrefix(text: seq<char>, base: nat, flags: Flags): (s: seq<char>)
    ensures |text| <= NTOA_BUFFER ==> |s| <= NTOA_BUFFER
  {
    Prepend('0', if base == 16 then Prepend(if flags.upper then 'X' else 'x', text)
                 else if base == 2 then Prepend('b', text)
                 else text)
  }

  function Hashed(text: seq<char>, base: nat, prec: nat, width: nat, flags: Flags): (s: seq<char>)
    ensures |text| <= NTOA_BUFFER ==> |s| <= NTOA_BUFFER
  {
    if flags.hash then HashPrefix(text[TakenBack(|text|, base, prec, width, flags)..], base, flags) else text
  }

  function Signed(text: seq<char>, negative: bool, flags: Flags): (s: seq<char>)
    ensures |text| <= NTOA_BUFFER ==> |s| <= NTOA_BUFFER
  {
    if negative then Prepend('-', text)
    else if flags.plus then Prepend('+', text)
    else if flags.space then Prepend(' ', text)
    else text
  }

  /** Everything an integer conversion prints. */
  function NumberText(value: nat, negative: bool, base: nat, prec: nat, width: nat, flags: Flags): seq<char>
    requires IsBase(base)
  {
    var f := if value == 0 then flags.(hash := false) else flags;
    FormatNumber(DigitText(value, base, f), negative, base, prec, width, f)
  }

  function FormatNumber(digits: seq<char>, negative: bool, base: nat, prec: nat, width: nat, flags: Flags): seq<char> {
    var w := ZeroWidth(negative, width, flags);
    var t := Filled(digits, negative, prec, width, flags);
    var u := Signed(Hashed(t, base, prec, w, flags), negative, flags);
    if !flags.left && flags.zero then u else Padded(u, w, flags.left)
  }

  // ----------------------------------------------------------------- arguments

  /** The low n bits of a slot as a signed number. */
  function SignedBits(bits: nat, modulus: nat): (v: int)
    requires modulus > 0
    ensures 0 <= v + modulus && v < modulus
    ensures v == bits % modulus || v == bits % modulus - modulus
    ensures 0 <= 2 * v + modulus && 2 * v < modulus
  {
    var low := bits % modulus;
    if 2 * low < modulus then low else low - modulus
  }

  function TypeModulus(flags: Flags): nat {
    if flags.longLong || flags.long then MAX64 + 1
    else if flags.tiny then 0x100
    else if flags.short then 0x1_0000
    else WORD32
  }

  function IntegerText(conv: char, bits: nat, prec: nat, width: nat, flags: Flags): seq<char> {
    var f := IntegerFlags(conv, flags);
    if conv == 'i' || conv == 'd' then SignedText(SignedBits(bits, TypeModulus(f)), prec, width, f)
    else NumberText(bits % TypeModulus(f), false, ConversionBase(conv), prec, width, f)
  }

  function ConversionBase(conv: char): (b: nat)
    ensures IsBase(b)
  {
    if conv == 'x' || conv == 'X' then 16 else if conv == 'o' then 8 else if conv == 'b' then 2 else 10
  }

  function SignedText(v: int, prec: nat, width: nat, flags: Flags): seq<char> {
    NumberText(if v > 0 then v else -v, v < 0, 10, prec, width, flags)
  }

  /** # only where it means something, plus and space only for signed conversions, no zero fill with a precision. */
  function IntegerFlags(conv: char, flags: Flags): Flags {
    var f := flags.(upper := flags.upper || conv == 'X',
                    hash := flags.hash && (conv == 'x' || conv == 'X' || conv == 'o' || conv == 'b'));
    var g := if conv == 'i' || conv == 'd' then f else f.(plus := false, space := false);
    if g.precise then g.(zero := false) else g
  }

  function CharText(c: char, width: nat, flags: Flags): seq<char> {
    Padded([c], width, flags.left)
  }

  function StringText(s: seq<char>, prec: nat, width: nat, flags: Flags): seq<char> {
    Padded(if flags.precise && prec < |s| then s[..prec] else s, width, flags.left)
  }

  function PointerText(bits: nat, prec: nat, flags: Flags): seq<char> {
    NumberText(bits % (MAX64 + 1), false, 16, prec, 16, flags.(zero := true, upper := true))
  }

  // ---------------------------------------------------------------- directives

  /** A position in the format and in the arguments, and what was read so far. */
  datatype Spec = Spec(i: nat, a: nat, flags: Flags, width: nat, prec: nat)

  predicate IsFlag(c: char) {
    c == '0' || c == '-' || c == '+' || c == ' ' || c == '#'
  }

  function AddFlag(c: char, flags: Flags): Flags {
    if c == '0' then flags.(zero := true)
    else if c == '-' then flags.(left := true)
    else if c == '+' then flags.(plus := true)
    else if c == ' ' then flags.(space := true)
    else flags.(hash := true)
  }

  function ReadFlags(f: seq<char>, s: Spec): (r: Spec)
    requires s.i <= |f|
    ensures s.i <= r.i <= |f| && r.a == s.a && !IsFlag(At(f, r.i))
    ensures r.prec == s.prec
    decreases |f| - s.i
  {
    if IsFlag(At(f, s.i)) then ReadFlags(f, s.(i := s.i + 1, flags := AddFlag(At(f, s.i), s.flags))) else s
  }

  /** _atoi: the decimal number at i, in 32-bit arithmetic. */
  function Number(f: seq<char>, i: nat): (n: nat)
    requires i <= |f|
    ensures n < WORD32
  {
    Value(f, i, RunEnd(f, i, 10), 10) % WORD32
  }

  function ReadWidth(f: seq<char>, args: seq<Arg>, s: Spec): (r: Option<Spec>)
    requires s.i <= |f|
    ensures r.Some? ==> s.i <= r.value.i <= |f| && r.value.prec == s.prec
  {
    if DigitValue(At(f, s.i)) < 10 then Some(s.(i := RunEnd(f, s.i, 10), width := Number(f, s.i)))
    else if At(f, s.i) != '*' then Some(s)
    else if s.a < |args| && args[s.a].Word? then
      var w := SignedBits(args[s.a].bits, WORD32);
      Some(if w < 0 then Spec(s.i + 1, s.a + 1, s.flags.(left := true), -w, s.prec)
           else Spec(s.i + 1, s.a + 1, s.flags, w, s.prec))
    else None
  }

  function ReadPrecision(f: seq<char>, args: seq<Arg>, s: Spec): (r: Option<Spec>)
    requires s.i <= |f|
    ensures r.Some? ==> s.i <= r.value.i <= |f| && (r.value.prec > 0 && s.prec == 0 ==> r.value.flags.precise)
  {
    if At(f, s.i) != '.' then Some(s) else
    var flags := s.flags.(precise := true);
    var i := s.i + 1;
    if DigitValue(At(f, i)) < 10 then Some(Spec(RunEnd(f, i, 10), s.a, flags, s.width, Number(f, i)))
    else if At(f, i) != '*' then Some(Spec(i, s.a, flags, s.width, s.prec))
    else if s.a < |args| && args[s.a].Word? then
      var p := SignedBits(args[s.a].bits, WORD32);
      Some(Spec(i + 1, s.a + 1, flags, s.width, if p > 0 then p else 0))
    else None
  }

  function ReadLength(f: seq<char>, s: Spec): (r: Spec)
    requires s.i <= |f|
    ensures s.i <= r.i <= |f| && r.a == s.a && r.prec == s.prec && r.flags.precise == s.flags.precise
  {
    var c := At(f, s.i);
    if c == 'l' then
      if At(f, s.i + 1) == 'l' then s.(i := s.i + 2, flags := s.flags.(long := true, longLong := true))
      else s.(i := s.i + 1, flags := s.flags.(long := true))
    else if c == 'h' then
      if At(f, s.i + 1) == 'h' then s.(i := s.i + 2, flags := s.flags.(short := true, tiny := true))
      else s.(i := s.i + 1, flags := s.flags.(short := true))
    else if c == 't' || c == 'j' || c == 'z' then s.(i := s.i + 1, flags := s.flags.(long := true))
    else s
  }

  /** The directive whose % is at i - 1, up to its conversion character. */
  function ReadDirective(f: seq<char>, i: nat, args: seq<Arg>, a: nat): (r: Option<Spec>)
    requires i <= |f|
    ensures r.Some? ==> i <= r.value.i < |f| && (r.value.prec > 0 ==> r.value.flags.precise)
  {
    var w := ReadWidth(f, args, ReadFlags(f, Spec(i, a, NO_FLAGS, 0, 0)));
    if w.None? then None else
    var p := ReadPrecision(f, args, w.value);
    if p.None? then None else
    var s := ReadLength(f, p.value);
    if s.i < |f| then Some(s) else None
  }

  predicate IsInteger(c: char) {
    c == 'd' || c == 'i' || c == 'u' || c == 'x' || c == 'X' || c == 'o' || c == 'b'
  }

  predicate IsFloat(c: char) {
    c == 'f' || c == 'F' || c == 'e' || c == 'E' || c == 'g' || c == 'G'
  }

  predicate TakesArgument(c: char) {
    IsInteger(c) || c == 'c' || c == 's' || c == 'p'
  }

  function ArgumentsAfter(c: char, a: nat): nat {
    if TakesArgument(c) then a + 1 else a
  }

  /** What a directive with conversion c prints; None when its argument is missing or of the wrong kind. */
  function Render(c: char, s: Spec, args: seq<Arg>): Option<seq<char>> {
    if IsFloat(c) then None
    else if !TakesArgument(c) then Some([c])
    else if s.a >= |args| || (args[s.a].Text? <==> c != 's') then None
    else if c == 's' then Some(StringText(args[s.a].chars, s.prec, s.width, s.flags))
    else if c == 'c' then Some(CharText((args[s.a].bits % 256) as char, s.width, s.flags))
    else if c == 'p' then Some(PointerText(args[s.a].bits, s.prec, s.flags))
    else Some(IntegerText(c, args[s.a].bits, s.prec, s.width, s.flags))
  }

  type Renderer = (char, Spec, seq<Arg>) -> Option<seq<char>>

  /** The unbounded output of the format from position i on, given what single directives print. */
  function Output(render: Renderer, f: seq<char>, i: nat, args: seq<Arg>, a: nat): Option<seq<char>>
    requires i <= |f|
    decreases |f| - i
  {
    if i == |f| then Some([])
    else if f[i] != '%' then
      var rest := Output(render, f, i + 1, args, a);
      if rest.None? then None else Some([f[i]] + rest.value)
    else
      var s := ReadDirective(f, i + 1, args, a);
      if s.None? then None else
      var c := f[s.value.i];
      var text, rest := render(c, s.value, args), Output(render, f, s.value.i + 1, args, ArgumentsAfter(c, s.value.a));
      if text.None? || rest.None? then None else Some(text.value + rest.value)
  }

  /** The text a format and its arguments stand for. */
  function Printed(f: seq<char>, args: seq<Arg>): Option<seq<char>> {
    Output(Render, f, 0, args, 0)
  }

  /** render(c, s, args) is what the directive prints. */
  ghost predicate RendersAs(render: Renderer, c: char, s: Spec, args: seq<Arg>) {
    render(c, s, args) == Render(c, s, args)
  }

  ghost predicate IsRender(render: Renderer) {
    forall c, s, args {:trigger RendersAs(render, c, s, args)} :: RendersAs(render, c, s, args)
  }
}
