/** The streaming MD5 of the kernel. */
module Md5 {
  import PowersOfTwo
  import opened Words
  import opened Rfc1321

  // ----------------------------------------------------------------- macros

  function FastF(x: Word, y: Word, z: Word): Word { Xor(z, And(x, Xor(y, z))) }
  function FastG(x: Word, y: Word, z: Word): Word { Xor(y, And(z, Xor(x, y))) }
  function H1(x: Word, y: Word, z: Word): Word { Xor(Xor(x, y), z) }
  function H2(x: Word, y: Word, z: Word): Word { Xor(x, Xor(y, z)) }
  function OrNotI(x: Word, y: Word, z: Word): Word { Xor(y, Or(x, Not(z))) }

  lemma {:induction false} FastFAgrees(x: Word, y: Word, z: Word)
    ensures FastF(x, y, z) == F(x, y, z)
  {
    WordSize();
    SelectBits(32, x, y, z);
  }

  lemma {:induction false} FastGAgrees(x: Word, y: Word, z: Word)
    ensures FastG(x, y, z) == G(x, y, z)
  {
    WordSize();
    SelectBits(32, z, x, y);
    AndCommutes(32, z, x);
    AndCommutes(32, Not(z), y);
  }

  lemma {:induction false} H2Agrees(x: Word, y: Word, z: Word)
    ensures H2(x, y, z) == H(x, y, z)
  {
    WordSize();
    XorAssociates(32, x, y, z);
  }

  /** The STEP macro on register a, with the mixed value f. */
  function Step(f: Word, a: Word, b: Word, x: Word, t: Word, s: nat): Word
    requires 0 < s < 32
  {
    var sum := Add(a, Add(Add(f, x), t));
    Add(Or(Shl(sum, s), Shr(And(sum, 0xffffffff), 32 - s)), b)
  }

  lemma {:induction false} SumAgrees(a: Word, f: Word, x: Word, t: Word)
    ensures Add(a, Add(Add(f, x), t)) == Add(Add(Add(a, f), x), t)
  {
    AddAssociates(a, Add(f, x), t);
    AddAssociates(a, f, x);
  }

  lemma {:induction false} AddAssociates(x: Word, y: Word, z: Word)
    ensures Add(x, Add(y, z)) == Add(Add(x, y), z)
  {
  }

  lemma {:induction false} StepAgrees(f: Word, a: Word, b: Word, x: Word, t: Word, s: nat)
    requires 0 < s < 32
    ensures Step(f, a, b, x, t, s) == Add(b, RotateLeft(Add(Add(Add(a, f), x), t), s))
  {
    WordSize();
    SumAgrees(a, f, x, t);
    AndOnes(32, Add(Add(Add(a, f), x), t));
  }

  /** The STEP macro computes the register that operation i changes. */
  lemma {:induction false} OperationByStep(i: nat, r: Registers, x: seq<Word>, f: Word)
    requires i < 64 && |x| == 16 && f == Mix(i, r.b, r.c, r.d)
    ensures Operation(i, r, x) == Registers(r.d, Step(f, r.a, r.b, x[WordIndex(i)], T(i), ShiftAmount(i)), r.b, r.c)
  {
    StepAgrees(f, r.a, r.b, x[WordIndex(i)], T(i), ShiftAmount(i));
  }

  /** The STEP macro with the value its function mixed: one operation of the trace. */
  method StepAt(f: Word, a: Word, b: Word, c: Word, d: Word, xk: Word, t: Word, s: nat,
                ghost i: nat, ghost trace: seq<Registers>, ghost x: seq<Word>) returns (r: Word)
    requires IsTrace(trace, x) && i < 64 && Registers(a, b, c, d) == trace[i] && f == Mix(i, b, c, d)
    requires xk == x[WordIndex(i)] && t == T(i) && s == ShiftAmount(i)
    ensures Registers(d, r, b, c) == trace[i + 1]
  {
    r := Step(f, a, b, xk, t, s);
    OperationByStep(i, trace[i], x, f);
    assert Follows(trace, x, i);
  }

  /** GET: the four bytes at 4 * n, the first one lowest. */
  function Get(block: seq<Byte>, n: nat): Word
    requires |block| == 64 && n < 16
  {
    var b0: nat, b1: nat, b2: nat, b3: nat := block[4 * n], block[4 * n + 1], block[4 * n + 2], block[4 * n + 3];
    b0 + 0x100 * (b1 + 0x100 * (b2 + 0x100 * b3))
  }

  lemma {:induction false} GetIsWord(block: seq<Byte>, n: nat)
    requires |block| == 64 && n < 16
    ensures Get(block, n) == BlockWords(block)[n]
  {
    var b := block[4 * n..4 * n + 4];
    assert BlockWords(block)[n] == LittleEndian(b);
    assert b[0] == block[4 * n] && b[1] == block[4 * n + 1] && b[2] == block[4 * n + 2] && b[3] == block[4 * n + 3];
  }

  /** OUT: the four bytes of a word by shifting. */
  function Out(src: Word): seq<Byte> {
    [src % 0x100, Shr(src, 8) % 0x100, Shr(src, 16) % 0x100, Shr(src, 24) % 0x100]
  }

  lemma {:induction false} OutIsBytes(src: Word)
    ensures Out(src) == Bytes(src)
  {
    ByteShifts(src);
    TopByte(src);
  }

  lemma {:induction false} TopByte(src: Word)
    ensures src / 0x1000000 % 0x100 == src / 0x1000000
  {
  }

  lemma {:induction false} ByteShifts(src: Word)
    ensures Shr(src, 8) == src / 0x100 && Shr(src, 16) == src / 0x10000 && Shr(src, 24) == src / 0x1000000
  {
    assert PowersOfTwo.Pow2(8) == 0x100;
    PowersOfTwo.Pow2Add(8, 8);
    PowersOfTwo.Pow2Add(16, 8);
    ShiftRightQuotient(src, 8);
    ShiftRightQuotient(src, 16);
    ShiftRightQuotient(src, 24);
  }

  method MixF(b: Word, c: Word, d: Word, ghost i: nat) returns (f: Word)
    requires 0 <= i < 16
    ensures f == Mix(i, b, c, d)
  {
    FastFAgrees(b, c, d);
    f := FastF(b, c, d);
  }

  method StepF(a: Word, b: Word, c: Word, d: Word, xk: Word, t: Word, s: nat,
               ghost i: nat, ghost trace: seq<Registers>, ghost x: seq<Word>) returns (r: Word)
    requires IsTrace(trace, x) && 0 <= i < 16 && Registers(a, b, c, d) == trace[i]
    requires xk == x[WordIndex(i)] && t == T(i) && s == ShiftAmount(i)
    ensures Registers(d, r, b, c) == trace[i + 1]
  {
    var f := MixF(b, c, d, i);
    r := StepAt(f, a, b, c, d, xk, t, s, i, trace, x);
  }

  method MixG(b: Word, c: Word, d: Word, ghost i: nat) returns (f: Word)
    requires 16 <= i < 32
    ensures f == Mix(i, b, c, d)
  {
    FastGAgrees(b, c, d);
    f := FastG(b, c, d);
  }

  method StepG(a: Word, b: Word, c: Word, d: Word, xk: Word, t: Word, s: nat,
               ghost i: nat, ghost trace: seq<Registers>, ghost x: seq<Word>) returns (r: Word)
    requires IsTrace(trace, x) && 16 <= i < 32 && Registers(a, b, c, d) == trace[i]
    requires xk == x[WordIndex(i)] && t == T(i) && s == ShiftAmount(i)
    ensures Registers(d, r, b, c) == trace[i + 1]
  {
    var f := MixG(b, c, d, i);
    r := StepAt(f, a, b, c, d, xk, t, s, i, trace, x);
  }

  method MixH(b: Word, c: Word, d: Word, ghost i: nat) returns (f: Word)
    requires 32 <= i < 48
    ensures f == Mix(i, b, c, d)
  {
    f := H1(b, c, d);
  }

  method StepH(a: Word, b: Word, c: Word, d: Word, xk: Word, t: Word, s: nat,
               ghost i: nat, ghost trace: seq<Registers>, ghost x: seq<Word>) returns (r: Word)
    requires IsTrace(trace, x) && 32 <= i < 48 && Registers(a, b, c, d) == trace[i]
    requires xk == x[WordIndex(i)] && t == T(i) && s == ShiftAmount(i)
    ensures Registers(d, r, b, c) == trace[i + 1]
  {
    var f := MixH(b, c, d, i);
    r := StepAt(f, a, b, c, d, xk, t, s, i, trace, x);
  }

  method MixH2(b: Word, c: Word, d: Word, ghost i: nat) returns (f: Word)
    requires 32 <= i < 48
    ensures f == Mix(i, b, c, d)
  {
    H2Agrees(b, c, d);
    f := H2(b, c, d);
  }

  method StepH2(a: Word, b: Word, c: Word, d: Word, xk: Word, t: Word, s: nat,
               ghost i: nat, ghost trace: seq<Registers>, ghost x: seq<Word>) returns (r: Word)
    requires IsTrace(trace, x) && 32 <= i < 48 && Registers(a, b, c, d) == trace[i]
    requires xk == x[WordIndex(i)] && t == T(i) && s == ShiftAmount(i)
    ensures Registers(d, r, b, c) == trace[i + 1]
  {
    var f := MixH2(b, c, d, i);
    r := StepAt(f, a, b, c, d, xk, t, s, i, trace, x);
  }

  method MixI(b: Word, c: Word, d: Word, ghost i: nat) returns (f: Word)
    requires 48 <= i < 64
    ensures f == Mix(i, b, c, d)
  {
    f := OrNotI(b, c, d);
  }

  method StepI(a: Word, b: Word, c: Word, d: Word, xk: Word, t: Word, s: nat,
               ghost i: nat, ghost trace: seq<Registers>, ghost x: seq<Word>) returns (r: Word)
    requires IsTrace(trace, x) && 48 <= i < 64 && Registers(a, b, c, d) == trace[i]
    requires xk == x[WordIndex(i)] && t == T(i) && s == ShiftAmount(i)
    ensures Registers(d, r, b, c) == trace[i + 1]
  {
    var f := MixI(b, c, d, i);
    r := StepAt(f, a, b, c, d, xk, t, s, i, trace, x);
  }

  method Round1(x: seq<Word>, a0: Word, b0: Word, c0: Word, d0: Word, ghost trace: seq<Registers>)
    returns (a: Word, b: Word, c: Word, d: Word)
    requires IsTrace(trace, x) && Registers(a0, b0, c0, d0) == trace[0]
    ensures Registers(a, b, c, d) == trace[16]
  {
    a, b, c, d := a0, b0, c0, d0;
    a := StepF(a, b, c, d, x[0], 0xd76aa478, 7, 0, trace, x);
    d := StepF(d, a, b, c, x[1], 0xe8c7b756, 12, 1, trace, x);
    c := StepF(c, d, a, b, x[2], 0x242070db, 17, 2, trace, x);
    b := StepF(b, c, d, a, x[3], 0xc1bdceee, 22, 3, trace, x);
    a := StepF(a, b, c, d, x[4], 0xf57c0faf, 7, 4, trace, x);
    d := StepF(d, a, b, c, x[5], 0x4787c62a, 12, 5, trace, x);
    c := StepF(c, d, a, b, x[6], 0xa8304613, 17, 6, trace, x);
    b := StepF(b, c, d, a, x[7], 0xfd469501, 22, 7, trace, x);
    a := StepF(a, b, c, d, x[8], 0x698098d8, 7, 8, trace, x);
    d := StepF(d, a, b, c, x[9], 0x8b44f7af, 12, 9, trace, x);
    c := StepF(c, d, a, b, x[10], 0xffff5bb1, 17, 10, trace, x);
    b := StepF(b, c, d, a, x[11], 0x895cd7be, 22, 11, trace, x);
    a := StepF(a, b, c, d, x[12], 0x6b901122, 7, 12, trace, x);
    d := StepF(d, a, b, c, x[13], 0xfd987193, 12, 13, trace, x);
    c := StepF(c, d, a, b, x[14], 0xa679438e, 17, 14, trace, x);
    b := StepF(b, c, d, a, x[15], 0x49b40821, 22, 15, trace, x);
  }

  method Round2(x: seq<Word>, a0: Word, b0: Word, c0: Word, d0: Word, ghost trace: seq<Registers>)
    returns (a: Word, b: Word, c: Word, d: Word)
    requires IsTrace(trace, x) && Registers(a0, b0, c0, d0) == trace[16]
    ensures Registers(a, b, c, d) == trace[32]
  {
    a, b, c, d := a0, b0, c0, d0;
    a := StepG(a, b, c, d, x[1], 0xf61e2562, 5, 16, trace, x);
    d := StepG(d, a, b, c, x[6], 0xc040b340, 9, 17, trace, x);
    c := StepG(c, d, a, b, x[11], 0x265e5a51, 14, 18, trace, x);
    b := StepG(b, c, d, a, x[0], 0xe9b6c7aa, 20, 19, trace, x);
    a := StepG(a, b, c, d, x[5], 0xd62f105d, 5, 20, trace, x);
    d := StepG(d, a, b, c, x[10], 0x02441453, 9, 21, trace, x);
    c := StepG(c, d, a, b, x[15], 0xd8a1e681, 14, 22, trace, x);
    b := StepG(b, c, d, a, x[4], 0xe7d3fbc8, 20, 23, trace, x);
    a := StepG(a, b, c, d, x[9], 0x21e1cde6, 5, 24, trace, x);
    d := StepG(d, a, b, c, x[14], 0xc33707d6, 9, 25, trace, x);
    c := StepG(c, d, a, b, x[3], 0xf4d50d87, 14, 26, trace, x);
    b := StepG(b, c, d, a, x[8], 0x455a14ed, 20, 27, trace, x);
    a := StepG(a, b, c, d, x[13], 0xa9e3e905, 5, 28, trace, x);
    d := StepG(d, a, b, c, x[2], 0xfcefa3f8, 9, 29, trace, x);
    c := StepG(c, d, a, b, x[7], 0x676f02d9, 14, 30, trace, x);
    b := StepG(b, c, d, a, x[12], 0x8d2a4c8a, 20, 31, trace, x);
  }

  method Round3(x: seq<Word>, a0: Word, b0: Word, c0: Word, d0: Word, ghost trace: seq<Registers>)
    returns (a: Word, b: Word, c: Word, d: Word)
    requires IsTrace(trace, x) && Registers(a0, b0, c0, d0) == trace[32]
    ensures Registers(a, b, c, d) == trace[48]
  {
    a, b, c, d := a0, b0, c0, d0;
    a := StepH(a, b, c, d, x[5], 0xfffa3942, 4, 32, trace, x);
    d := StepH2(d, a, b, c, x[8], 0x8771f681, 11, 33, trace, x);
    c := StepH(c, d, a, b, x[11], 0x6d9d6122, 16, 34, trace, x);
    b := StepH2(b, c, d, a, x[14], 0xfde5380c, 23, 35, trace, x);
    a := StepH(a, b, c, d, x[1], 0xa4beea44, 4, 36, trace, x);
    d := StepH2(d, a, b, c, x[4], 0x4bdecfa9, 11, 37, trace, x);
    c := StepH(c, d, a, b, x[7], 0xf6bb4b60, 16, 38, trace, x);
    b := StepH2(b, c, d, a, x[10], 0xbebfbc70, 23, 39, trace, x);
    a := StepH(a, b, c, d, x[13], 0x289b7ec6, 4, 40, trace, x);
    d := StepH2(d, a, b, c, x[0], 0xeaa127fa, 11, 41, trace, x);
    c := StepH(c, d, a, b, x[3], 0xd4ef3085, 16, 42, trace, x);
    b := StepH2(b, c, d, a, x[6], 0x04881d05, 23, 43, trace, x);
    a := StepH(a, b, c, d, x[9], 0xd9d4d039, 4, 44, trace, x);
    d := StepH2(d, a, b, c, x[12], 0xe6db99e5, 11, 45, trace, x);
    c := StepH(c, d, a, b, x[15], 0x1fa27cf8, 16, 46, trace, x);
    b := StepH2(b, c, d, a, x[2], 0xc4ac5665, 23, 47, trace, x);
  }

  method Round4(x: seq<Word>, a0: Word, b0: Word, c0: Word, d0: Word, ghost trace: seq<Registers>)
    returns (a: Word, b: Word, c: Word, d: Word)
    requires IsTrace(trace, x) && Registers(a0, b0, c0, d0) == trace[48]
    ensures Registers(a, b, c, d) == trace[64]
  {
    a, b, c, d := a0, b0, c0, d0;
    a := StepI(a, b, c, d, x[0], 0xf4292244, 6, 48, trace, x);
    d := StepI(d, a, b, c, x[7], 0x432aff97, 10, 49, trace, x);
    c := StepI(c, d, a, b, x[14], 0xab9423a7, 15, 50, trace, x);
    b := StepI(b, c, d, a, x[5], 0xfc93a039, 21, 51, trace, x);
    a := StepI(a, b, c, d, x[12], 0x655b59c3, 6, 52, trace, x);
    d := StepI(d, a, b, c, x[3], 0x8f0ccc92, 10, 53, trace, x);
    c := StepI(c, d, a, b, x[10], 0xffeff47d, 15, 54, trace, x);
    b := StepI(b, c, d, a, x[1], 0x85845dd1, 21, 55, trace, x);
    a := StepI(a, b, c, d, x[8], 0x6fa87e4f, 6, 56, trace, x);
    d := StepI(d, a, b, c, x[15], 0xfe2ce6e0, 10, 57, trace, x);
    c := StepI(c, d, a, b, x[6], 0xa3014314, 15, 58, trace, x);
    b := StepI(b, c, d, a, x[13], 0x4e0811a1, 21, 59, trace, x);
    a := StepI(a, b, c, d, x[4], 0xf7537e82, 6, 60, trace, x);
    d := StepI(d, a, b, c, x[11], 0xbd3af235, 10, 61, trace, x);
    c := StepI(c, d, a, b, x[2], 0x2ad7d2bb, 15, 62, trace, x);
    b := StepI(b, c, d, a, x[9], 0xeb86d391, 21, 63, trace, x);
  }

  // ---------------------------------------------------------------- counters

  /** The 29-bit low and 32-bit high byte counters after `size` more bytes. */
  function NextLo(lo: nat, size: nat): nat {
    (lo + size) % 0x1_0000_0000_0000_0000 % 0x2000_0000
  }

  function NextHi(lo: nat, hi: nat, size: nat): nat {
    var carried := if NextLo(lo, size) < lo then (hi + 1) % 0x1_0000_0000 else hi;
    (carried + size / 0x2000_0000) % 0x1_0000_0000
  }

  /** hi * 2^29 + lo counts bytes modulo 2^61. */
  ghost predicate Counts(lo: nat, hi: nat, length: nat) {
    lo < 0x2000_0000 && hi < 0x1_0000_0000 && hi * 0x2000_0000 + lo == length % 0x2000_0000_0000_0000
  }

  /** Cutting an extended message where the original was cut. */
  lemma {:induction false} CutExtended(m: seq<Byte>, data: seq<Byte>, full: nat)
    requires full <= |m|
    ensures (m + data)[..full] == m[..full] && (m + data)[full..] == m[full..] + data
    ensures m + data == m[..full] + (m[full..] + data)
  {
  }

  lemma {:induction false} Regroup(m: seq<Byte>, data: seq<Byte>, whole: nat)
    requires whole <= |data|
    ensures (m + data)[..|m| + whole] == m + data[..whole] && (m + data)[|m| + whole..] == data[whole..]
  {
  }

  /** The low counter knows how many bytes of the last block are there. */
  lemma {:induction false} LowCounter(lo: nat, hi: nat, length: nat, blocks: nat)
    requires Counts(lo, hi, length) && 64 * blocks <= length < 64 * blocks + 64
    ensures lo % 64 == length - 64 * blocks
  {
    var q, c := length / 0x2000_0000_0000_0000, length % 0x2000_0000_0000_0000;
    assert c == 64 * (hi * 0x80_0000) + lo;
    assert length == 64 * (q * 0x80_0000_0000_0000) + c;
    BlockUnique(length, q * 0x80_0000_0000_0000 + hi * 0x80_0000 + lo / 64, lo % 64, blocks);
  }

  lemma {:induction false} BlockUnique(length: nat, b: nat, r: nat, blocks: nat)
    requires length == 64 * b + r && r < 64 && 64 * blocks <= length < 64 * blocks + 64
    ensures b == blocks
  {
  }

  /** Padding brings the last block to 56 bytes, or spills into one more block. */
  lemma {:induction false} PaddingShape(length: nat, blocks: nat)
    requires 64 * blocks <= length < 64 * blocks + 64
    ensures var used := length - 64 * blocks;
            |Padding(length)| == if used < 56 then 56 - used else 120 - used
  {
    assert length % 64 == length - 64 * blocks;
  }

  lemma {:induction false} CarryIsExact(lo: nat, size: nat)
    requires lo < 0x2000_0000
    ensures (lo + size) / 0x2000_0000 == size / 0x2000_0000 + (if NextLo(lo, size) < lo then 1 else 0)
    ensures NextLo(lo, size) == (lo + size) % 0x2000_0000
  {
  }

  lemma {:induction false} CountersAdvance(lo: nat, hi: nat, length: nat, size: nat)
    requires Counts(lo, hi, length)
    ensures Counts(NextLo(lo, size), NextHi(lo, hi, size), length + size)
  {
    CarryIsExact(lo, size);
    var q, lo' := (lo + size) / 0x2000_0000, NextLo(lo, size);
    var h := hi + q;
    CarriedHigh(hi, if lo' < lo then 1 else 0, size / 0x2000_0000);
    var hi' := h % 0x1_0000_0000;
    var turns := length / 0x2000_0000_0000_0000 + h / 0x1_0000_0000;
    assert lo + size == q * 0x2000_0000 + lo' && h == (h / 0x1_0000_0000) * 0x1_0000_0000 + hi';
    assert length + size == turns * 0x2000_0000_0000_0000 + (hi' * 0x2000_0000 + lo');
    PowersOfTwo.DivModUnique(length + size, turns, hi' * 0x2000_0000 + lo', 0x2000_0000_0000_0000);
  }

  /** Incrementing modulo 2^32 first and adding later gives the same high word. */
  lemma {:induction false} CarriedHigh(hi: nat, carry: nat, add: nat)
    requires hi < 0x1_0000_0000 && carry <= 1
    ensures (((hi + carry) % 0x1_0000_0000) + add) % 0x1_0000_0000 == (hi + carry + add) % 0x1_0000_0000
  {
  }

  // --------------------------------------------------------------- the context

  class Context {
    var lo: nat
    var hi: nat
    var a: Word
    var b: Word
    var c: Word
    var d: Word
    const buffer: array<Byte>
    ghost var message: seq<Byte>
    ghost var blocks: nat
    ghost const step: (Registers, seq<Byte>) -> Registers

    ghost function Regs(): Registers
      reads this
    {
      Registers(a, b, c, d)
    }

    /** The first `blocks` blocks of m are folded into the registers, the rest waits in the buffer. */
    ghost predicate Holds(m: seq<Byte>, blocks: nat)
      reads this, buffer
    {
      && buffer.Length == 64 && ComputesCompress(step)
      && 64 * blocks <= |m| < 64 * blocks + 64
      && Regs() == Fold(step, INITIAL, m[..64 * blocks])
      && buffer[..|m| - 64 * blocks] == m[64 * blocks..]
    }

    ghost predicate Valid()
      reads this, buffer
    {
      Holds(message, blocks) && Counts(lo, hi, |message|)
    }

    /** MD5_Init */
    constructor (ghost step: (Registers, seq<Byte>) -> Registers)
      requires ComputesCompress(step)
      ensures Valid() && fresh(buffer) && message == [] && this.step == step
    {
      this.step := step;
      a, b, c, d := 0x67452301, 0xefcdab89, 0x98badcfe, 0x10325476;
      lo, hi := 0, 0;
      buffer := new Byte[64](_ => 0);
      message, blocks := [], 0;
    }

    /** body: compresses one or more whole blocks. */
    method Body(data: seq<Byte>, ghost n: nat)
      requires |data| == 64 * n && n > 0 && ComputesCompress(step)
      modifies this`a, this`b, this`c, this`d
      ensures Regs() == Fold(step, old(Regs()), data)
    {
      var ptr := 0;
      ghost var k := 0;
      while ptr < |data|
        invariant ptr == 64 * k <= |data|
        invariant Regs() == Fold(step, old(Regs()), data[..ptr])
      {
        var block := data[ptr..ptr + 64];
        CompressBlock(block);
        FoldAppend(step, old(Regs()), data[..ptr], k, block);
        assert data[..ptr + 64] == data[..ptr] + block;
        ptr := ptr + 64;
        k := k + 1;
      }
      assert data[..ptr] == data;
    }

    /** One pass of the do loop in body: four rounds, then the saved registers are added. */
    method CompressBlock(block: seq<Byte>)
      requires |block| == 64 && ComputesCompress(step)
      modifies this`a, this`b, this`c, this`d
      ensures Regs() == Fold(step, old(Regs()), block)
    {
      var x := GetBlock(block);
      ghost var trace := TraceOf(Regs(), x);
      TraceIsTrace(Regs(), x);
      var sa, sb, sc, sd := a, b, c, d;
      var ra, rb, rc, rd := Round1(x, a, b, c, d, trace);
      ra, rb, rc, rd := Round2(x, ra, rb, rc, rd, trace);
      ra, rb, rc, rd := Round3(x, ra, rb, rc, rd, trace);
      ra, rb, rc, rd := Round4(x, ra, rb, rc, rd, trace);
      a, b, c, d := Add(ra, sa), Add(rb, sb), Add(rc, sc), Add(rd, sd);
      FoldBlock(step, old(Regs()), block);
      assert CompressesAt(step, old(Regs()), block);
    }

    /** MD5_Update */
    method Update(data: seq<Byte>)
      requires Valid() && |data| < 0x1_0000_0000_0000_0000
      modifies this, buffer
      ensures Valid() && message == old(message) + data
    {
      ghost var m := message;
      var used := CountBytes(|data|, |m|, blocks);
      message := m + data;
      if used != 0 {
        blocks := Complete(used, data, m, blocks);
      } else {
        blocks := Absorb(data, m, blocks);
      }
    }

    /** MD5_Update with a partly filled buffer: fill it, and go on behind it when it becomes full. */
    method Complete(used: nat, data: seq<Byte>, ghost m: seq<Byte>, ghost n: nat) returns (ghost total: nat)
      requires Holds(m, n) && 0 < used == |m| - 64 * n
      modifies this`a, this`b, this`c, this`d, buffer
      ensures Holds(m + data, total)
    {
      var available := 64 - used;
      if |data| < available {
        Append(used, data, m, n);
        return n;
      }
      Append(used, data[..available], m, n);
      assert m + data == (m + data[..available]) + data[available..];
      total := Absorb(data[available..], m + data[..available], n + 1);
    }

    /** The counter update at the head of MD5_Update; yields the number of buffered bytes before it. */
    method CountBytes(size: nat, ghost length: nat, ghost n: nat) returns (used: nat)
      requires Counts(lo, hi, length) && size < 0x1_0000_0000_0000_0000 && 64 * n <= length < 64 * n + 64
      modifies this`lo, this`hi
      ensures Counts(lo, hi, length + size) && used == length - 64 * n
    {
      LowCounter(lo, hi, length, n);
      CountersAdvance(lo, hi, length, size);
      var savedLo := lo;
      lo := NextLo(savedLo, size);
      hi := NextHi(savedLo, hi, size);
      used := savedLo % 64;
    }

    /** Extends a partly filled buffer; a buffer that becomes full is compressed. */
    method Append(used: nat, data: seq<Byte>, ghost m: seq<Byte>, ghost n: nat)
      requires Holds(m, n) && used == |m| - 64 * n && 0 < |data| + used <= 64
      modifies this`a, this`b, this`c, this`d, buffer
      ensures Holds(m + data, if used + |data| == 64 then n + 1 else n)
    {
      CutExtended(m, data, 64 * n);
      Copy(buffer, used, data);
      if used + |data| == 64 {
        assert buffer[..] == buffer[..64] == m[64 * n..] + data;
        Body(buffer[..], 1);
        FoldAppend(step, INITIAL, m[..64 * n], n, m[64 * n..] + data);
        assert (m + data)[..64 * (n + 1)] == m + data;
      }
    }

    /** The tail of MD5_Update, with an empty buffer: whole blocks straight from the data, the rest buffered. */
    method Absorb(data: seq<Byte>, ghost m: seq<Byte>, ghost n: nat) returns (ghost total: nat)
      requires Holds(m, n) && |m| == 64 * n
      modifies this`a, this`b, this`c, this`d, buffer
      ensures Holds(m + data, total)
    {
      var whole := |data| - |data| % 64;
      ghost var k := |data| / 64;
      ghost var head := data[..whole];
      assert m[..64 * n] == m;
      if |data| >= 64 {
        Body(data[..whole], k);
        FoldAppend(step, INITIAL, m, n, head);
      } else {
        assert m + head == m;
      }
      Copy(buffer, 0, data[whole..]);
      total := n + k;
      Regroup(m, data, whole);
    }

    /** MD5_Final: pads, appends the length, outputs the registers and wipes the context. */
    method Final() returns (result: seq<Byte>)
      requires Valid()
      modifies this, buffer
      ensures result == DigestWith(step, old(message))
      ensures lo == 0 && hi == 0 && Regs() == Registers(0, 0, 0, 0) && buffer[..] == Zeros(64)
    {
      ghost var m, n := message, blocks;
      LowCounter(lo, hi, |m|, n);
      PaddingShape(|m|, n);
      var used := lo % 64;
      if used + 1 > 56 {
        PadAcross(used, m, n);
        n := n + 1;
      } else {
        PadWithin(used, m, n);
      }
      AppendLength(m, n);
      result := OutRegisters(a, b, c, d);
      lo, hi, a, b, c, d := 0, 0, 0, 0, 0, 0;
      Copy(buffer, 0, Zeros(64));
      assert buffer[..] == buffer[..64];
    }

    /** Fewer than 8 bytes would remain: zero-fill and compress this block, then zero-fill the next up to byte 56. */
    method PadAcross(used: nat, ghost m: seq<Byte>, ghost n: nat)
      requires Holds(m, n) && used == |m| - 64 * n && used >= 56 && |Padding(|m|)| == 120 - used
      modifies this`a, this`b, this`c, this`d, buffer
      ensures Holds(m + Padding(|m|), n + 1)
    {
      var tail := [0x80] + Zeros(63 - used);
      Append(used, tail, m, n);
      Copy(buffer, 0, Zeros(56));
      assert Padding(|m|) == tail + Zeros(56);
      assert m + Padding(|m|) == (m + tail) + Zeros(56);
      CutExtended(m + tail, Zeros(56), |m + tail|);
    }

    /** The padding fits before byte 56 of this block. */
    method PadWithin(used: nat, ghost m: seq<Byte>, ghost n: nat)
      requires Holds(m, n) && used == |m| - 64 * n && used < 56 && |Padding(|m|)| == 56 - used
      modifies buffer
      ensures Holds(m + Padding(|m|), n)
    {
      var pad := [0x80] + Zeros(55 - used);
      Copy(buffer, used, pad);
      assert Padding(|m|) == pad;
      CutExtended(m, pad, 64 * n);
    }

    /** Writes the 64-bit length behind the padding and compresses the last block. */
    method AppendLength(ghost m: seq<Byte>, ghost n: nat)
      requires Holds(m + Padding(|m|), n) && |m + Padding(|m|)| == 64 * n + 56 && Counts(lo, hi, |m|)
      modifies this`a, this`b, this`c, this`d, buffer
      ensures Regs() == Fold(step, INITIAL, Padded(m))
    {
      ghost var p := m + Padding(|m|);
      LengthFromCounters(lo, hi, |m|);
      OutIsBytes(lo * 8);
      OutIsBytes(hi);
      var field := Out(lo * 8) + Out(hi);
      CutExtended(p, field, 64 * n);
      Copy(buffer, 56, field);
      assert buffer[..] == buffer[..64] == p[64 * n..] + field;
      Body(buffer[..], 1);
      FoldAppend(step, INITIAL, p[..64 * n], n, p[64 * n..] + field);
    }
  }

  /** The two counter words, the low one shifted, are the RFC's length field. */
  lemma {:induction false} LengthFromCounters(lo: nat, hi: nat, length: nat)
    requires Counts(lo, hi, length)
    ensures lo * 8 < 0x1_0000_0000 && LengthField(length) == Bytes(lo * 8) + Bytes(hi)
  {
    var q := length / 0x2000_0000_0000_0000;
    assert 8 * length == q * 0x1_0000_0000_0000_0000 + (hi * 0x1_0000_0000 + lo * 8);
    PowersOfTwo.DivModUnique(8 * length, q, hi * 0x1_0000_0000 + lo * 8, 0x1_0000_0000_0000_0000);
    PowersOfTwo.DivModUnique(hi * 0x1_0000_0000 + lo * 8, hi, lo * 8, 0x1_0000_0000);
  }

  // ------------------------------------------------------------ whole messages

  /** The bytes of a message cut into chunks. */
  function Concat(chunks: seq<seq<Byte>>): seq<Byte> {
    if chunks == [] then [] else Concat(chunks[..|chunks| - 1]) + chunks[|chunks| - 1]
  }

  /** Init, one Update per chunk, Final: the digest of the concatenation, however the message is cut. */
  method DigestChunks(chunks: seq<seq<Byte>>, ghost step: (Registers, seq<Byte>) -> Registers)
    returns (result: seq<Byte>)
    requires ComputesCompress(step)
    requires forall i :: 0 <= i < |chunks| ==> |chunks[i]| < 0x1_0000_0000_0000_0000
    ensures result == DigestWith(step, Concat(chunks))
  {
    var ctx := new Context(step);
    for i := 0 to |chunks|
      invariant ctx.Valid() && fresh(ctx) && fresh(ctx.buffer) && ctx.step == step
      invariant ctx.message == Concat(chunks[..i])
    {
      ctx.Update(chunks[i]);
      assert chunks[..i + 1][..i] == chunks[..i];
    }
    assert chunks[..|chunks|] == chunks;
    result := ctx.Final();
  }

  /** MD5_Digest on a message given in chunks yields the RFC 1321 digest. */
  method Md5Digest(chunks: seq<seq<Byte>>) returns (result: seq<Byte>)
    requires forall i :: 0 <= i < |chunks| ==> |chunks[i]| < 0x1_0000_0000_0000_0000
    ensures result == Digest(Concat(chunks))
  {
    CompressComputesItself();
    result := DigestChunks(chunks, Compress);
  }

  ghost function TraceOf(r: Registers, x: seq<Word>): seq<Registers>
    requires |x| == 16
  {
    seq(65, i requires 0 <= i < 65 => Operations(i, r, x))
  }

  lemma {:induction false} TraceIsTrace(r: Registers, x: seq<Word>)
    requires |x| == 16
    ensures IsTrace(TraceOf(r, x), x)
  {
    forall i | 0 <= i < 64
      ensures Follows(TraceOf(r, x), x, i)
    {
      OneMore(i, r, x);
    }
  }

  /** The sixteen words that the steps get from a block. */
  method GetBlock(block: seq<Byte>) returns (x: seq<Word>)
    requires |block| == 64
    ensures x == BlockWords(block)
  {
    x := seq(16, n requires 0 <= n < 16 => Get(block, n));
    forall n | 0 <= n < 16
      ensures x[n] == BlockWords(block)[n]
    {
      GetIsWord(block, n);
    }
  }

  /** The four registers by OUT. */
  method OutRegisters(a: Word, b: Word, c: Word, d: Word) returns (result: seq<Byte>)
    ensures result == Output(Registers(a, b, c, d))
  {
    OutIsBytes(a);
    OutIsBytes(b);
    OutIsBytes(c);
    OutIsBytes(d);
    result := Out(a) + Out(b) + Out(c) + Out(d);
  }

  /** memcpy into the context buffer. */
  method Copy(buffer: array<Byte>, at: nat, data: seq<Byte>)
    requires at + |data| <= buffer.Length
    modifies buffer
    ensures buffer[..at + |data|] == old(buffer[..at]) + data
    ensures buffer[at + |data|..] == old(buffer[at + |data|..])
  {
    for i := 0 to |data|
      invariant forall j :: 0 <= j < buffer.Length ==>
        buffer[j] == if at <= j < at + i then data[j - at] else old(buffer[j])
    {
      buffer[at + i] := data[i];
    }
  }
}
