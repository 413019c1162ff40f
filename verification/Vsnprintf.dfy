/**
 _vsnprintf as it runs: characters are pushed one by one into a sink that drops
 what does not fit, digits are collected in a 32-character buffer, and the
 format is scanned with loops.
 */
module Vsnprintf {
  import opened Numerals
  import opened FormatText
  import opened Options

  // ---------------------------------------------------------------------- sink

  /** _out_buffer */
  method OutBuffer(c: char, buffer: array<char>, idx: nat, maxlen: nat)
    requires maxlen <= buffer.Length
    modifies buffer
    ensures buffer[..] == if idx < maxlen then old(buffer[..])[idx := c] else old(buffer[..])
  {
    if idx < maxlen {
      buffer[idx] := c;
    }
  }

  /**
   The output function with its buffer and limit.  `written` is everything put
   so far: Put takes index |written| and no other, so every index is used once
   and in order.
   */
  class Sink {
    const buffer: array?<char>
    const maxlen: nat
    ghost const initial: seq<char>
    ghost var written: seq<char>

    ghost predicate Valid()
      reads this, buffer
    {
      buffer != null ==>
        && maxlen <= buffer.Length && |initial| == buffer.Length
        && forall k :: 0 <= k < buffer.Length ==>
             buffer[k] == if k < |written| && k < maxlen then written[k] else initial[k]
    }

    constructor (buffer: array?<char>, maxlen: nat)
      requires buffer != null ==> maxlen <= buffer.Length
      ensures Valid() && written == [] && this.buffer == buffer && this.maxlen == maxlen
      ensures buffer != null ==> initial == buffer[..]
    {
      this.buffer := buffer;
      this.maxlen := maxlen;
      this.initial := if buffer != null then buffer[..] else [];
      this.written := [];
    }

    method Put(c: char, idx: nat) returns (next: nat)
      requires Valid() && idx == |written|
      modifies this, buffer
      ensures Valid() && written == old(written) + [c] && next == idx + 1
    {
      if buffer != null {
        OutBuffer(c, buffer, idx, maxlen);
      }
      written := written + [c];
      next := idx + 1;
    }

    /** A padding loop: c until `len` reaches `width`. */
    method Fill(c: char, idx: nat, len: nat, width: nat) returns (next: nat)
      requires Valid() && idx == |written|
      modifies this, buffer
      ensures Valid() && written == old(written) + Repeat(c, width - len) && next == |written|
    {
      next := idx;
      var l := len;
      ghost var more: seq<char> := [];
      assert written + more == written;
      while l < width
        invariant len <= l && (l <= width || l == len) && more == Repeat(c, l - len)
        invariant Valid() && written == old(written) + more && next == |written|
      {
        next := Put(c, next);
        more := more + [c];
        l := l + 1;
      }
    }
  }

  // -------------------------------------------------------------- digit buffer

  /** The first len cells hold text, last character first. */
  ghost predicate Holds(buf: seq<char>, len: nat, text: seq<char>) {
    |text| == len <= |buf| && forall k :: 0 <= k < len ==> buf[k] == text[len - 1 - k]
  }

  method Push(buf: array<char>, len: nat, c: char, ghost text: seq<char>) returns (next: nat)
    requires buf.Length == NTOA_BUFFER && Holds(buf[..], len, text)
    modifies buf
    ensures next == |Prepend(c, text)| && Holds(buf[..], next, Prepend(c, text))
  {
    next := len;
    if len < NTOA_BUFFER {
      buf[len] := c;
      next := len + 1;
      assert forall k :: 0 <= k < next ==> buf[k] == ([c] + text)[next - 1 - k];
    }
  }

  /** Zeros in front of the text, up to n characters or a full buffer. */
  method PushZeros(buf: array<char>, len: nat, n: nat, ghost text: seq<char>) returns (next: nat)
    requires buf.Length == NTOA_BUFFER && Holds(buf[..], len, text)
    modifies buf
    ensures next == |ZeroFilled(text, n)| && Holds(buf[..], next, ZeroFilled(text, n))
  {
    next := len;
    ghost var now := text;
    assert Repeat('0', 0) + text == text;
    while next < n && next < NTOA_BUFFER
      invariant len <= next <= NTOA_BUFFER && (next <= n || next == len)
      invariant now == Repeat('0', next - len) + text && Holds(buf[..], next, now)
    {
      ZerosInFront(next - len, text);
      next := Push(buf, next, '0', now);
      now := ['0'] + now;
    }
  }

  lemma {:induction false} ZerosInFront(n: nat, text: seq<char>)
    ensures ['0'] + (Repeat('0', n) + text) == Repeat('0', n + 1) + text
  {
    if n > 0 {
      ZerosInFront(n - 1, ['0'] + text);
      assert Repeat('0', n) + text == Repeat('0', n - 1) + (['0'] + text);
      assert Repeat('0', n + 1) + text == Repeat('0', n) + (['0'] + text);
    }
  }

  /** What the digit loop has produced: the low digits of value, v being what is left. */
  ghost predicate LowDigits(text: seq<char>, v: nat, value: nat, base: nat, upper: bool)
    requires IsBase(base)
  {
    Digits(value, base, upper) == (if v == 0 then [] else Digits(v, base, upper)) + text
  }

  /** The do-while loop of _ntoa_long. */
  method WriteDigits(buf: array<char>, value: nat, base: nat, flags: Flags) returns (len: nat)
    requires buf.Length == NTOA_BUFFER && IsBase(base) && !(flags.precise && value == 0)
    modifies buf
    ensures len == |DigitText(value, base, flags)| && Holds(buf[..], len, DigitText(value, base, flags))
  {
    var v: nat := Rest(value, base);
    ghost var text := [LowDigit(value, base, flags.upper)];
    QuotientSmaller(value, base);
    len := Push(buf, 0, LowDigit(value, base, flags.upper), []);
    FirstDigit(value, base, flags.upper);
    while v != 0 && len < NTOA_BUFFER
      invariant 0 < len && Holds(buf[..], len, text) && len <= NTOA_BUFFER
      invariant LowDigits(text, v, value, base, flags.upper)
      decreases v
    {
      NextDigit(text, v, value, base, flags.upper);
      QuotientSmaller(v, base);
      len := Push(buf, len, LowDigit(v, base, flags.upper), text);
      text := [LowDigit(v, base, flags.upper)] + text;
      v := Rest(v, base);
    }
    LastDigits(text, v, value, base, flags);
  }

  lemma {:induction false} FirstDigit(value: nat, base: nat, upper: bool)
    requires IsBase(base)
    ensures LowDigits([LowDigit(value, base, upper)], Rest(value, base), value, base, upper)
  {
    QuotientSmaller(value, base);
  }

  lemma {:induction false} NextDigit(text: seq<char>, v: nat, value: nat, base: nat, upper: bool)
    requires IsBase(base) && v != 0 && LowDigits(text, v, value, base, upper)
    ensures LowDigits([LowDigit(v, base, upper)] + text, Rest(v, base), value, base, upper)
  {
    QuotientSmaller(v, base);
    var c := [LowDigit(v, base, upper)];
    if v < base {
      assert c + text == [] + (c + text);
    } else {
      assert Digits(Rest(v, base), base, upper) + c + text == Digits(Rest(v, base), base, upper) + (c + text);
    }
  }

  lemma {:induction false} LastDigits(text: seq<char>, v: nat, value: nat, base: nat, flags: Flags)
    requires IsBase(base) && LowDigits(text, v, value, base, flags.upper) && !(flags.precise && value == 0)
    requires |text| <= NTOA_BUFFER && (v == 0 || |text| == NTOA_BUFFER)
    ensures text == DigitText(value, base, flags)
  {
    var d := Digits(value, base, flags.upper);
    if v == 0 {
      assert d == text;
    } else {
      assert text == d[|d| - NTOA_BUFFER..];
    }
  }

  /** _out_rev */
  method OutRev(sink: Sink, idx: nat, buf: array<char>, len: nat, width: nat, flags: Flags, ghost text: seq<char>)
    returns (next: nat)
    requires sink.Valid() && idx == |sink.written| && buf != sink.buffer && Holds(buf[..], len, text)
    modifies sink, sink.buffer
    ensures sink.Valid() && next == |sink.written|
    ensures sink.written
         == old(sink.written) + if !flags.left && flags.zero then text else Padded(text, width, flags.left)
  {
    ghost var before := sink.written;
    ghost var pad := Repeat(' ', width - len);
    next := idx;
    if !flags.left && !flags.zero {
      next := sink.Fill(' ', next, len, width);
    }
    next := OutReversed(sink, next, buf, len, text);
    if flags.left {
      next := sink.Fill(' ', next, len, width);
      assert before + text + pad == before + (text + pad);
    } else if !flags.zero {
      assert before + pad + text == before + (pad + text);
    }
  }

  method OutReversed(sink: Sink, idx: nat, buf: array<char>, len: nat, ghost text: seq<char>) returns (next: nat)
    requires sink.Valid() && idx == |sink.written| && buf != sink.buffer && Holds(buf[..], len, text)
    modifies sink, sink.buffer
    ensures sink.Valid() && next == |sink.written| && sink.written == old(sink.written) + text
  {
    next := idx;
    var l := len;
    while l != 0
      invariant 0 <= l <= len && sink.Valid() && next == |sink.written|
      invariant sink.written == old(sink.written) + text[..len - l] && Holds(buf[..], len, text)
    {
      l := l - 1;
      next := sink.Put(buf[l], next);
    }
    assert text[..len] == text;
  }

  // ------------------------------------------------------------------- numbers

  /** _ntoa_format */
  method NtoaFormat(sink: Sink, idx: nat, buf: array<char>, len: nat, negative: bool, base: nat, prec: nat, width: nat,
                    flags: Flags, ghost digits: seq<char>)
    returns (next: nat)
    requires sink.Valid() && idx == |sink.written| && buf != sink.buffer && buf.Length == NTOA_BUFFER
      && Holds(buf[..], len, digits)
    modifies sink, sink.buffer, buf
    ensures sink.Valid() && next == |sink.written|
    ensures sink.written == old(sink.written) + FormatNumber(digits, negative, base, prec, width, flags)
  {
    var l, w := FillZeros(buf, len, negative, prec, width, flags, digits);
    ghost var text := Filled(digits, negative, prec, width, flags);
    l := PushHash(buf, l, base, prec, w, flags, text);
    text := Hashed(text, base, prec, w, flags);
    l := PushSign(buf, l, negative, flags, text);
    next := OutRev(sink, idx, buf, l, w, flags, Signed(text, negative, flags));
  }

  method FillZeros(buf: array<char>, len: nat, negative: bool, prec: nat, width: nat, flags: Flags,
                   ghost digits: seq<char>)
    returns (l: nat, w: nat)
    requires buf.Length == NTOA_BUFFER && Holds(buf[..], len, digits)
    modifies buf
    ensures w == ZeroWidth(negative, width, flags)
    ensures l == |Filled(digits, negative, prec, width, flags)|
      && Holds(buf[..], l, Filled(digits, negative, prec, width, flags))
  {
    l, w := len, width;
    if !flags.left {
      if width > 0 && flags.zero && (negative || flags.plus || flags.space) {
        w := width - 1;
      }
      l := PushZeros(buf, l, prec, digits);
      if flags.zero {
        l := PushZeros(buf, l, w, ZeroFilled(digits, prec));
      }
    }
  }

  method PushHash(buf: array<char>, len: nat, base: nat, prec: nat, width: nat, flags: Flags, ghost text: seq<char>)
    returns (l: nat)
    requires buf.Length == NTOA_BUFFER && Holds(buf[..], len, text)
    modifies buf
    ensures l == |Hashed(text, base, prec, width, flags)| && Holds(buf[..], l, Hashed(text, base, prec, width, flags))
  {
    l := len;
    if flags.hash {
      if !flags.precise && l > 0 && (l == prec || l == width) {
        l := l - 1;
        if l > 0 && base == 16 {
          l := l - 1;
        }
      }
      l := PushPrefix(buf, l, base, flags, text[len - l..]);
    }
  }

  method PushPrefix(buf: array<char>, len: nat, base: nat, flags: Flags, ghost text: seq<char>) returns (l: nat)
    requires buf.Length == NTOA_BUFFER && Holds(buf[..], len, text)
    modifies buf
    ensures l == |HashPrefix(text, base, flags)| && Holds(buf[..], l, HashPrefix(text, base, flags))
  {
    l := len;
    if base == 16 && !flags.upper {
      l := Push(buf, l, 'x', text);
      l := Push(buf, l, '0', Prepend('x', text));
    } else if base == 16 {
      l := Push(buf, l, 'X', text);
      l := Push(buf, l, '0', Prepend('X', text));
    } else if base == 2 {
      l := Push(buf, l, 'b', text);
      l := Push(buf, l, '0', Prepend('b', text));
    } else {
      l := Push(buf, l, '0', text);
    }
  }

  method PushSign(buf: array<char>, len: nat, negative: bool, flags: Flags, ghost text: seq<char>) returns (l: nat)
    requires buf.Length == NTOA_BUFFER && Holds(buf[..], len, text)
    modifies buf
    ensures l == |Signed(text, negative, flags)| && Holds(buf[..], l, Signed(text, negative, flags))
  {
    l := len;
    if negative {
      l := Push(buf, l, '-', text);
    } else if flags.plus {
      l := Push(buf, l, '+', text);
    } else if flags.space {
      l := Push(buf, l, ' ', text);
    }
  }

  /** The digits of value in a fresh buffer. */
  method CollectDigits(value: nat, base: nat, flags: Flags) returns (buf: array<char>, len: nat)
    requires IsBase(base)
    ensures fresh(buf) && buf.Length == NTOA_BUFFER && Holds(buf[..], len, DigitText(value, base, flags))
  {
    buf := new char[NTOA_BUFFER];
    len := 0;
    if !flags.precise || value != 0 {
      len := WriteDigits(buf, value, base, flags);
    }
  }

  /** _ntoa_long and _ntoa_long_long, which differ only in the name of the 64-bit type. */
  method NtoaLong(sink: Sink, idx: nat, value: nat, negative: bool, base: nat, prec: nat, width: nat, flags: Flags)
    returns (next: nat)
    requires sink.Valid() && idx == |sink.written| && IsBase(base)
    modifies sink, sink.buffer
    ensures sink.Valid() && next == |sink.written|
    ensures sink.written == old(sink.written) + NumberText(value, negative, base, prec, width, flags)
  {
    var f := if value == 0 then flags.(hash := false) else flags;
    var buf, len := CollectDigits(value, base, f);
    ghost var digits := DigitText(value, base, f);
    next := NtoaFormat(sink, idx, buf, len, negative, base, prec, width, f, digits);
  }

  method PutInteger(sink: Sink, idx: nat, conv: char, bits: nat, prec: nat, width: nat, flags: Flags)
    returns (next: nat)
    requires sink.Valid() && idx == |sink.written|
    modifies sink, sink.buffer
    ensures sink.Valid() && next == |sink.written|
    ensures sink.written == old(sink.written) + IntegerText(conv, bits, prec, width, flags)
  {
    var f := IntegerFlags(conv, flags);
    if conv == 'i' || conv == 'd' {
      next := PutSigned(sink, idx, SignedBits(bits, TypeModulus(f)), prec, width, f);
    } else {
      var value := bits % TypeModulus(f);
      next := NtoaLong(sink, idx, value, false, ConversionBase(conv), prec, width, f);
    }
  }

  method PutSigned(sink: Sink, idx: nat, value: int, prec: nat, width: nat, flags: Flags) returns (next: nat)
    requires sink.Valid() && idx == |sink.written|
    modifies sink, sink.buffer
    ensures sink.Valid() && next == |sink.written|
    ensures sink.written == old(sink.written) + SignedText(value, prec, width, flags)
  {
    next := NtoaLong(sink, idx, if value > 0 then value else -value, value < 0, 10, prec, width, flags);
  }

  // ------------------------------------------------------ characters and strings

  method PutChar(sink: Sink, idx: nat, c: char, width: nat, flags: Flags) returns (next: nat)
    requires sink.Valid() && idx == |sink.written|
    modifies sink, sink.buffer
    ensures sink.Valid() && next == |sink.written| && sink.written == old(sink.written) + CharText(c, width, flags)
  {
    next := idx;
    ghost var before, pad := sink.written, Repeat(' ', width - 1);
    if !flags.left {
      next := sink.Fill(' ', next, 1, width);
    }
    next := sink.Put(c, next);
    if flags.left {
      next := sink.Fill(' ', next, 1, width);
      assert before + [c] + pad == before + ([c] + pad);
    } else {
      assert before + pad + [c] == before + (pad + [c]);
    }
  }

  /** _strnlen_s */
  method Strnlen(s: seq<char>, maxsize: nat) returns (n: nat)
    ensures n == if |s| < maxsize then |s| else maxsize
  {
    n := 0;
    while n < |s| && n < maxsize
      invariant n <= |s| && n <= maxsize
    {
      n := n + 1;
    }
  }

  /** The %s directive; l is the printed length the padding loops count from. */
  method PutString(sink: Sink, idx: nat, s: seq<char>, prec: nat, width: nat, flags: Flags) returns (next: nat)
    requires sink.Valid() && idx == |sink.written| && |s| < WORD32 && (prec > 0 ==> flags.precise)
    modifies sink, sink.buffer
    ensures sink.Valid() && next == |sink.written|
      && sink.written == old(sink.written) + StringText(s, prec, width, flags)
  {
    var l := Strnlen(s, if prec != 0 then prec else MAX64);
    if flags.precise {
      l := if l < prec then l else prec;
    }
    ghost var text := if flags.precise && prec < |s| then s[..prec] else s;
    next := idx;
    ghost var before, pad := sink.written, Repeat(' ', width - |text|);
    if !flags.left {
      next := sink.Fill(' ', next, l, width);
    }
    next := PutPrefix(sink, next, s, prec, flags.precise, text);
    if flags.left {
      next := sink.Fill(' ', next, l, width);
      assert before + text + pad == before + (text + pad);
    } else {
      assert before + pad + text == before + (pad + text);
    }
  }

  method PutPrefix(sink: Sink, idx: nat, s: seq<char>, prec: nat, precise: bool, ghost text: seq<char>)
    returns (next: nat)
    requires sink.Valid() && idx == |sink.written| && text == if precise && prec < |s| then s[..prec] else s
    modifies sink, sink.buffer
    ensures sink.Valid() && next == |sink.written| && sink.written == old(sink.written) + text
  {
    next := idx;
    var k, left := 0, prec;
    while k < |s| && (!precise || left > 0)
      invariant 0 <= k <= |text| && (precise ==> left == prec - k)
      invariant sink.Valid() && next == |sink.written| && sink.written == old(sink.written) + text[..k]
      decreases |s| - k
    {
      next := sink.Put(s[k], next);
      k := k + 1;
      if precise { left := left - 1; }
    }
    assert text[..k] == text;
  }

  // ------------------------------------------------------------- format scanner

  /** _atoi */
  method Atoi(f: seq<char>, i: nat) returns (n: nat, end: nat)
    requires i <= |f|
    ensures end == RunEnd(f, i, 10) && n == Number(f, i)
  {
    n, end := 0, i;
    while DigitValue(At(f, end)) < 10
      invariant i <= end <= |f| && AllDigits(f, i, end, 10) && n == Value(f, i, end, 10) % WORD32
      decreases |f| - end
    {
      var d := DigitValue(At(f, end));
      WrapStep(Value(f, i, end, 10), d);
      n := (n * 10 + d) % WORD32;
      end := end + 1;
    }
    RunEndUnique(f, i, 10, end);
  }

  lemma {:induction false} WrapStep(v: nat, d: nat)
    ensures (v * 10 + d) % WORD32 == ((v % WORD32) * 10 + d) % WORD32
  {
    var q, r := v / WORD32, v % WORD32;
    assert v * 10 + d == (q * 10) * WORD32 + (r * 10 + d);
  }

  method ScanFlags(f: seq<char>, s: Spec) returns (r: Spec)
    requires s.i <= |f|
    ensures r == ReadFlags(f, s)
  {
    r := s;
    while IsFlag(At(f, r.i))
      invariant r.i <= |f| && ReadFlags(f, r) == ReadFlags(f, s)
      decreases |f| - r.i
    {
      r := r.(i := r.i + 1, flags := AddFlag(At(f, r.i), r.flags));
    }
  }

  method ScanWidth(f: seq<char>, args: seq<Arg>, s: Spec) returns (r: Spec)
    requires s.i <= |f| && ReadWidth(f, args, s).Some?
    ensures r == ReadWidth(f, args, s).value
  {
    r := s;
    if DigitValue(At(f, s.i)) < 10 {
      var n, end := Atoi(f, s.i);
      r := s.(i := end, width := n);
    } else if At(f, s.i) == '*' {
      var w := SignedBits(args[s.a].bits, WORD32);
      if w < 0 {
        r := Spec(s.i + 1, s.a + 1, s.flags.(left := true), -w, s.prec);
      } else {
        r := Spec(s.i + 1, s.a + 1, s.flags, w, s.prec);
      }
    }
  }

  method ScanPrecision(f: seq<char>, args: seq<Arg>, s: Spec) returns (r: Spec)
    requires s.i <= |f| && ReadPrecision(f, args, s).Some?
    ensures r == ReadPrecision(f, args, s).value
  {
    r := s;
    if At(f, s.i) == '.' {
      r := s.(i := s.i + 1, flags := s.flags.(precise := true));
      if DigitValue(At(f, r.i)) < 10 {
        var n, end := Atoi(f, r.i);
        r := r.(i := end, prec := n);
      } else if At(f, r.i) == '*' {
        var p := SignedBits(args[s.a].bits, WORD32);
        r := r.(i := r.i + 1, a := r.a + 1, prec := if p > 0 then p else 0);
      }
    }
  }

  method ScanDirective(f: seq<char>, i: nat, args: seq<Arg>, a: nat) returns (s: Spec)
    requires i <= |f| && ReadDirective(f, i, args, a).Some?
    ensures s == ReadDirective(f, i, args, a).value
  {
    s := ScanFlags(f, Spec(i, a, NO_FLAGS, 0, 0));
    s := ScanWidth(f, args, s);
    s := ScanPrecision(f, args, s);
    s := ReadLength(f, s);
  }

  // ------------------------------------------------------------------ vsnprintf

  /** Strings are C strings shorter than 2^32. */
  ghost predicate GoodArgs(args: seq<Arg>) {
    forall k :: 0 <= k < |args| && args[k].Text? ==> '\0' !in args[k].chars && |args[k].chars| < WORD32
  }

  method PutDirective(sink: Sink, idx: nat, c: char, s: Spec, args: seq<Arg>) returns (next: nat)
    requires sink.Valid() && idx == |sink.written| && Render(c, s, args).Some? && GoodArgs(args)
      && (s.prec > 0 ==> s.flags.precise)
    modifies sink, sink.buffer
    ensures sink.Valid() && next == |sink.written|
    ensures sink.written == old(sink.written) + Render(c, s, args).value
  {
    if IsInteger(c) {
      next := PutInteger(sink, idx, c, args[s.a].bits, s.prec, s.width, s.flags);
    } else if c == 'c' {
      next := PutChar(sink, idx, (args[s.a].bits % 256) as char, s.width, s.flags);
    } else if c == 's' {
      next := PutString(sink, idx, args[s.a].chars, s.prec, s.width, s.flags);
    } else if c == 'p' {
      next := NtoaLong(sink, idx, args[s.a].bits % (MAX64 + 1), false, 16, s.prec, 16,
                       s.flags.(zero := true, upper := true));
    } else {
      next := sink.Put(c, idx);
    }
  }

  /** Everything but the terminator. */
  method Format(sink: Sink, f: seq<char>, args: seq<Arg>) returns (idx: nat)
    requires sink.Valid() && sink.written == [] && '\0' !in f && GoodArgs(args) && Printed(f, args).Some?
    modifies sink, sink.buffer
    ensures sink.Valid() && idx == |sink.written| && sink.written == Printed(f, args).value
  {
    ghost var total := Printed(f, args).value;
    ghost var left, render := total, Render;
    assert IsRender(render);
    idx := 0;
    var i, a := 0, 0;
    while i < |f|
      invariant 0 <= i <= |f| && sink.Valid() && idx == |sink.written| && 0 <= a
      invariant Output(render, f, i, args, a) == Some(left) && sink.written + left == total
      decreases |f| - i
    {
      if f[i] != '%' {
        idx, left := FormatLiteral(sink, idx, f, i, args, a, render, left);
        i := i + 1;
      } else {
        idx, i, a, left := FormatDirective(sink, idx, f, i, args, a, render, left);
      }
    }
  }

  method FormatLiteral(sink: Sink, idx: nat, f: seq<char>, i: nat, args: seq<Arg>, a: nat, ghost render: Renderer,
                       ghost left: seq<char>)
    returns (next: nat, ghost rest: seq<char>)
    requires sink.Valid() && idx == |sink.written| && i < |f| && f[i] != '%'
      && Output(render, f, i, args, a) == Some(left)
    modifies sink, sink.buffer
    ensures sink.Valid() && next == |sink.written|
    ensures Output(render, f, i + 1, args, a) == Some(rest) && sink.written + rest == old(sink.written) + left
  {
    rest := OutputLiteral(f, i, args, a, render, left);
    next := sink.Put(f[i], idx);
    assert old(sink.written) + [f[i]] + rest == old(sink.written) + ([f[i]] + rest);
  }

  method FormatDirective(sink: Sink, idx: nat, f: seq<char>, i: nat, args: seq<Arg>, a: nat, ghost render: Renderer,
                         ghost left: seq<char>)
    returns (next: nat, j: nat, b: nat, ghost rest: seq<char>)
    requires sink.Valid() && idx == |sink.written| && i < |f| && f[i] == '%' && GoodArgs(args) && IsRender(render)
    requires Output(render, f, i, args, a) == Some(left)
    modifies sink, sink.buffer
    ensures sink.Valid() && next == |sink.written| && i < j <= |f|
    ensures Output(render, f, j, args, b) == Some(rest) && sink.written + rest == old(sink.written) + left
  {
    var s, text, tail, to, arg := OutputDirective(f, i, args, a, render, left);
    next, j, b := DirectiveItem(sink, idx, f, i + 1, args, a, render, s, text, tail);
    rest := tail;
  }

  method DirectiveItem(sink: Sink, idx: nat, f: seq<char>, i: nat, args: seq<Arg>, a: nat, ghost render: Renderer,
                       ghost s: Spec, ghost text: seq<char>, ghost rest: seq<char>)
    returns (next: nat, j: nat, b: nat)
    requires sink.Valid() && idx == |sink.written| && i <= |f| && GoodArgs(args) && IsRender(render)
    requires ReadDirective(f, i, args, a) == Some(s) && render(f[s.i], s, args) == Some(text)
    modifies sink, sink.buffer
    ensures sink.Valid() && next == |sink.written| && sink.written + rest == old(sink.written) + (text + rest)
    ensures j == s.i + 1 && b == ArgumentsAfter(f[s.i], s.a)
  {
    var d := ScanDirective(f, i, args, a);
    assert RendersAs(render, f[d.i], d, args);
    next := PutDirective(sink, idx, f[d.i], d, args);
    j, b := d.i + 1, ArgumentsAfter(f[d.i], d.a);
    assert old(sink.written) + text + rest == old(sink.written) + (text + rest);
  }

  lemma {:induction false} OutputLiteral(f: seq<char>, i: nat, args: seq<Arg>, a: nat, render: Renderer,
                                         left: seq<char>) returns (rest: seq<char>)
    requires i < |f| && f[i] != '%' && Output(render, f, i, args, a) == Some(left)
    ensures Output(render, f, i + 1, args, a) == Some(rest) && left == [f[i]] + rest
  {
    rest := Output(render, f, i + 1, args, a).value;
  }

  lemma {:induction false} OutputDirective(f: seq<char>, i: nat, args: seq<Arg>, a: nat, render: Renderer,
                                           left: seq<char>)
    returns (s: Spec, text: seq<char>, rest: seq<char>, j: nat, b: nat)
    requires i < |f| && f[i] == '%' && Output(render, f, i, args, a) == Some(left)
    ensures ReadDirective(f, i + 1, args, a) == Some(s) && i < s.i < |f| && left == text + rest
    ensures render(f[s.i], s, args) == Some(text) && j == s.i + 1 && b == ArgumentsAfter(f[s.i], s.a)
    ensures Output(render, f, j, args, b) == Some(rest)
  {
    s := ReadDirective(f, i + 1, args, a).value;
    text := render(f[s.i], s, args).value;
    j, b := s.i + 1, ArgumentsAfter(f[s.i], s.a);
    rest := Output(render, f, j, args, b).value;
  }

  /** What n bytes of memory hold afterwards: the text cut to n - 1 characters and a terminator, the rest untouched. */
  ghost predicate Truncated(memory: seq<char>, before: seq<char>, text: seq<char>, n: nat)
    requires |memory| == |before| && n <= |memory|
  {
    if n == 0 then memory == before
    else
      var end := if |text| < n then |text| else n - 1;
      && memory[end] == '\0'
      && (forall k :: 0 <= k < end ==> memory[k] == text[k])
      && (forall k :: end < k < |memory| ==> memory[k] == before[k])
  }

  /** vsnprintf_; the count is the length of the unbounded text, before its conversion to int. */
  method VsnprintfBuffer(buffer: array?<char>, maxlen: nat, f: seq<char>, args: seq<Arg>) returns (count: nat)
    requires buffer != null ==> maxlen <= buffer.Length
    requires '\0' !in f && GoodArgs(args) && Printed(f, args).Some?
    modifies buffer
    ensures count == |Printed(f, args).value|
    ensures buffer != null ==> Truncated(buffer[..], old(buffer[..]), Printed(f, args).value, maxlen)
  {
    var sink := new Sink(buffer, maxlen);
    count := Format(sink, f, args);
    if buffer != null {
      OutBuffer('\0', buffer, if count < maxlen then count else if maxlen == 0 then MAX64 else maxlen - 1, maxlen);
    }
  }
}
