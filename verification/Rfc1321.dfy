/** 32-bit words as naturals below 2^32, with bitwise operations defined bit by bit. */
module Words {
  import opened PowersOfTwo

  type Word = x: nat | x < 0x1_0000_0000
  type Byte = x: nat | x < 0x100

  lemma {:induction false} WordSize()
    ensures Pow2(32) == 0x1_0000_0000
  {
    assert Pow2(8) == 256;
    assert Pow2(16) == 256 * Pow2(8) by { Pow2Add(8, 8); }
    assert Pow2(32) == 65536 * Pow2(16) by { Pow2Add(16, 16); }
  }

  function AndBits(n: nat, x: nat, y: nat): (r: nat)
    requires x < Pow2(n) && y < Pow2(n)
    ensures r < Pow2(n)
  {
    if n == 0 then 0 else 2 * AndBits(n - 1, x / 2, y / 2) + (if x % 2 == 1 && y % 2 == 1 then 1 else 0)
  }

  function OrBits(n: nat, x: nat, y: nat): (r: nat)
    requires x < Pow2(n) && y < Pow2(n)
    ensures r < Pow2(n)
  {
    if n == 0 then 0 else 2 * OrBits(n - 1, x / 2, y / 2) + (if x % 2 == 1 || y % 2 == 1 then 1 else 0)
  }

  function XorBits(n: nat, x: nat, y: nat): (r: nat)
    requires x < Pow2(n) && y < Pow2(n)
    ensures r < Pow2(n)
  {
    if n == 0 then 0 else 2 * XorBits(n - 1, x / 2, y / 2) + (if x % 2 == y % 2 then 0 else 1)
  }

  function NotBits(n: nat, x: nat): (r: nat)
    requires x < Pow2(n)
    ensures r < Pow2(n)
  {
    if n == 0 then 0 else 2 * NotBits(n - 1, x / 2) + (1 - x % 2)
  }

  function And(x: Word, y: Word): Word { WordSize(); AndBits(32, x, y) }
  function Or(x: Word, y: Word): Word { WordSize(); OrBits(32, x, y) }
  function Xor(x: Word, y: Word): Word { WordSize(); XorBits(32, x, y) }
  function Not(x: Word): Word { WordSize(); NotBits(32, x) }

  /** x + y modulo 2^32. */
  function Add(x: Word, y: Word): Word {
    if x + y < 0x1_0000_0000 then x + y else x + y - 0x1_0000_0000
  }

  /** `x << s` on 32 bits. */
  function Shl(x: Word, s: nat): Word { ShiftLeft(x, s) % 0x1_0000_0000 }

  /** `x >> s`. */
  function Shr(x: Word, s: nat): (r: Word)
  {
    ShiftRightAtMost(x, s);
    ShiftRight(x, s)
  }

  lemma {:induction false} ShiftRightAtMost(x: nat, s: nat)
    ensures ShiftRight(x, s) <= x
    decreases s
  {
    if s > 0 { ShiftRightAtMost(x / 2, s - 1); }
  }

  // ------------------------------------------------------------ bitwise algebra

  lemma {:induction false} SelectBits(n: nat, x: nat, y: nat, z: nat)
    requires x < Pow2(n) && y < Pow2(n) && z < Pow2(n)
    ensures XorBits(n, z, AndBits(n, x, XorBits(n, y, z))) == OrBits(n, AndBits(n, x, y), AndBits(n, NotBits(n, x), z))
  {
    if n > 0 {
      SelectBits(n - 1, x / 2, y / 2, z / 2);
      var d, k := XorBits(n, y, z), NotBits(n, x);
      XorStep(n, y, z);
      NotStep(n, x);
      AndStep(n, x, d);
      AndStep(n, x, y);
      AndStep(n, k, z);
      XorStep(n, z, AndBits(n, x, d));
      OrStep(n, AndBits(n, x, y), AndBits(n, k, z));
    }
  }

  lemma {:induction false} XorStep(n: nat, x: nat, y: nat)
    requires n > 0 && x < Pow2(n) && y < Pow2(n)
    ensures XorBits(n, x, y) / 2 == XorBits(n - 1, x / 2, y / 2)
    ensures XorBits(n, x, y) % 2 == if x % 2 == y % 2 then 0 else 1
  {
  }

  lemma {:induction false} AndStep(n: nat, x: nat, y: nat)
    requires n > 0 && x < Pow2(n) && y < Pow2(n)
    ensures AndBits(n, x, y) / 2 == AndBits(n - 1, x / 2, y / 2)
    ensures AndBits(n, x, y) % 2 == if x % 2 == 1 && y % 2 == 1 then 1 else 0
  {
  }

  lemma {:induction false} OrStep(n: nat, x: nat, y: nat)
    requires n > 0 && x < Pow2(n) && y < Pow2(n)
    ensures OrBits(n, x, y) / 2 == OrBits(n - 1, x / 2, y / 2)
    ensures OrBits(n, x, y) % 2 == if x % 2 == 1 || y % 2 == 1 then 1 else 0
  {
  }

  lemma {:induction false} NotStep(n: nat, x: nat)
    requires n > 0 && x < Pow2(n)
    ensures NotBits(n, x) / 2 == NotBits(n - 1, x / 2) && NotBits(n, x) % 2 == 1 - x % 2
  {
  }

  lemma {:induction false} AndCommutes(n: nat, x: nat, y: nat)
    requires x < Pow2(n) && y < Pow2(n)
    ensures AndBits(n, x, y) == AndBits(n, y, x)
  {
    if n > 0 { AndCommutes(n - 1, x / 2, y / 2); }
  }

  lemma {:induction false} XorAssociates(n: nat, x: nat, y: nat, z: nat)
    requires x < Pow2(n) && y < Pow2(n) && z < Pow2(n)
    ensures XorBits(n, x, XorBits(n, y, z)) == XorBits(n, XorBits(n, x, y), z)
  {
    if n > 0 {
      XorAssociates(n - 1, x / 2, y / 2, z / 2);
      XorStep(n, y, z);
      XorStep(n, x, y);
      XorStep(n, x, XorBits(n, y, z));
      XorStep(n, XorBits(n, x, y), z);
    }
  }

  /** A bitwise operation of three words, named after the function of section 3.4 of RFC 1321 that it computes. */
  datatype Mixer = SelectByX | SelectByZ | Parity | OrNot

  function MixedBit(m: Mixer, x: nat, y: nat, z: nat): (b: nat)
    requires x < 2 && y < 2 && z < 2
    ensures b < 2
  {
    match m
    case SelectByX => if x == 1 then y else z
    case SelectByZ => if z == 1 then x else y
    case Parity => (x + y + z) % 2
    case OrNot => if x == 0 && z == 1 then y else 1 - y
  }

  function MixedBits(n: nat, m: Mixer, x: nat, y: nat, z: nat): (r: nat)
    ensures r < Pow2(n)
  {
    if n == 0 then 0 else 2 * MixedBits(n - 1, m, x / 2, y / 2, z / 2) + MixedBit(m, x % 2, y % 2, z % 2)
  }

  lemma {:induction false} MixedStep(n: nat, m: Mixer, x: nat, y: nat, z: nat)
    requires n > 0
    ensures MixedBits(n, m, x, y, z) / 2 == MixedBits(n - 1, m, x / 2, y / 2, z / 2)
    ensures MixedBits(n, m, x, y, z) % 2 == MixedBit(m, x % 2, y % 2, z % 2)
  {
  }

  /** Bit k of the result comes from bit k of the three words. */
  lemma {:induction false} MixedBitAt(n: nat, m: Mixer, x: nat, y: nat, z: nat, k: nat)
    requires k < n
    ensures ShiftRight(MixedBits(n, m, x, y, z), k) % 2
         == MixedBit(m, ShiftRight(x, k) % 2, ShiftRight(y, k) % 2, ShiftRight(z, k) % 2)
    decreases n
  {
    MixedStep(n, m, x, y, z);
    if k > 0 { MixedBitAt(n - 1, m, x / 2, y / 2, z / 2, k - 1); }
  }

  lemma {:induction false} SelectIsMixed(n: nat, x: nat, y: nat, z: nat)
    requires x < Pow2(n) && y < Pow2(n) && z < Pow2(n)
    ensures OrBits(n, AndBits(n, x, y), AndBits(n, NotBits(n, x), z)) == MixedBits(n, SelectByX, x, y, z)
  {
    if n > 0 {
      SelectIsMixed(n - 1, x / 2, y / 2, z / 2);
      NotStep(n, x);
      AndStep(n, x, y);
      AndStep(n, NotBits(n, x), z);
      OrStep(n, AndBits(n, x, y), AndBits(n, NotBits(n, x), z));
    }
  }

  lemma {:induction false} SelectByZIsMixed(n: nat, x: nat, y: nat, z: nat)
    requires x < Pow2(n) && y < Pow2(n) && z < Pow2(n)
    ensures OrBits(n, AndBits(n, x, z), AndBits(n, y, NotBits(n, z))) == MixedBits(n, SelectByZ, x, y, z)
  {
    if n > 0 {
      SelectByZIsMixed(n - 1, x / 2, y / 2, z / 2);
      NotStep(n, z);
      AndStep(n, x, z);
      AndStep(n, y, NotBits(n, z));
      OrStep(n, AndBits(n, x, z), AndBits(n, y, NotBits(n, z)));
    }
  }

  lemma {:induction false} ParityIsMixed(n: nat, x: nat, y: nat, z: nat)
    requires x < Pow2(n) && y < Pow2(n) && z < Pow2(n)
    ensures XorBits(n, XorBits(n, x, y), z) == MixedBits(n, Parity, x, y, z)
  {
    if n > 0 {
      ParityIsMixed(n - 1, x / 2, y / 2, z / 2);
      XorStep(n, x, y);
      XorStep(n, XorBits(n, x, y), z);
    }
  }

  lemma {:induction false} OrNotIsMixed(n: nat, x: nat, y: nat, z: nat)
    requires x < Pow2(n) && y < Pow2(n) && z < Pow2(n)
    ensures XorBits(n, y, OrBits(n, x, NotBits(n, z))) == MixedBits(n, OrNot, x, y, z)
  {
    if n > 0 {
      OrNotIsMixed(n - 1, x / 2, y / 2, z / 2);
      NotStep(n, z);
      OrStep(n, x, NotBits(n, z));
      XorStep(n, y, OrBits(n, x, NotBits(n, z)));
    }
  }

  /** An or without a common bit is a sum. */
  lemma {:induction false} OrIsSum(n: nat, u: nat, v: nat, s: nat)
    requires s <= n && u < Pow2(n - s) && v < Pow2(s)
    ensures u * Pow2(s) + v < Pow2(n) && u * Pow2(s) < Pow2(n) && v < Pow2(n)
    ensures OrBits(n, u * Pow2(s), v) == u * Pow2(s) + v
    decreases n
  {
    if s == 0 {
      OrZero(n, u);
    } else {
      OrIsSum(n - 1, u, v / 2, s - 1);
      DoubleProduct(u, Pow2(s - 1));
      OrStep(n, u * Pow2(s), v);
    }
  }

  lemma {:induction false} OrZero(n: nat, u: nat)
    requires u < Pow2(n)
    ensures OrBits(n, u, 0) == u
  {
    if n > 0 { OrZero(n - 1, u / 2); }
  }

  lemma {:induction false} ShiftRightQuotient(x: nat, s: nat)
    ensures ShiftRight(x, s) == x / Pow2(s)
  {
    ShiftRightBlock(x, s, ShiftRight(x, s));
    ShiftLeftProduct(ShiftRight(x, s), s);
    ShiftLeftProduct(ShiftRight(x, s) + 1, s);
    Distribute(ShiftRight(x, s), 1, Pow2(s));
    DivModUnique(x, ShiftRight(x, s), x - ShiftRight(x, s) * Pow2(s), Pow2(s));
  }

  lemma {:induction false} AndOnes(n: nat, x: nat)
    requires x < Pow2(n)
    ensures AndBits(n, x, Pow2(n) - 1) == x
  {
    if n > 0 {
      var ones := Pow2(n) - 1;
      assert ones == 2 * (Pow2(n - 1) - 1) + 1;
      AndStep(n, x, ones);
      AndOnes(n - 1, x / 2);
    }
  }
}

/**
 The MD5 message digest of RFC 1321, stated on whole messages: append padding
 (section 3.1), append the length (section 3.2), fold the compression of
 section 3.4 over the 64-byte blocks, output the registers (section 3.5).
 */
module Rfc1321 {
  import opened PowersOfTwo
  import opened Words

  datatype Registers = Registers(a: Word, b: Word, c: Word, d: Word)

  /** Section 3.3. */
  const INITIAL: Registers := Registers(0x67452301, 0xefcdab89, 0x98badcfe, 0x10325476)

  // ------------------------------------------------------------- section 3.4

  function F(x: Word, y: Word, z: Word): Word { Or(And(x, y), And(Not(x), z)) }
  function G(x: Word, y: Word, z: Word): Word { Or(And(x, z), And(y, Not(z))) }
  function H(x: Word, y: Word, z: Word): Word { Xor(Xor(x, y), z) }
  function I(x: Word, y: Word, z: Word): Word { Xor(y, Or(x, Not(z))) }

  /** Bit k of F is that of y or z, selected by x. */
  lemma {:induction false} BitsOfF(x: Word, y: Word, z: Word, k: nat)
    requires k < 32
    ensures ShiftRight(F(x, y, z), k) % 2
         == if ShiftRight(x, k) % 2 == 1 then ShiftRight(y, k) % 2 else ShiftRight(z, k) % 2
  {
    WordSize();
    SelectIsMixed(32, x, y, z);
    MixedBitAt(32, SelectByX, x, y, z, k);
  }

  /** Bit k of G is that of x or y, selected by z. */
  lemma {:induction false} BitsOfG(x: Word, y: Word, z: Word, k: nat)
    requires k < 32
    ensures ShiftRight(G(x, y, z), k) % 2
         == if ShiftRight(z, k) % 2 == 1 then ShiftRight(x, k) % 2 else ShiftRight(y, k) % 2
  {
    WordSize();
    SelectByZIsMixed(32, x, y, z);
    MixedBitAt(32, SelectByZ, x, y, z, k);
  }

  /** Bit k of H is the parity of the three. */
  lemma {:induction false} BitsOfH(x: Word, y: Word, z: Word, k: nat)
    requires k < 32
    ensures ShiftRight(H(x, y, z), k) % 2
         == (ShiftRight(x, k) % 2 + ShiftRight(y, k) % 2 + ShiftRight(z, k) % 2) % 2
  {
    WordSize();
    ParityIsMixed(32, x, y, z);
    MixedBitAt(32, Parity, x, y, z, k);
  }

  /** Bit k of I is that of y when x has a 0 and z a 1, and its complement otherwise. */
  lemma {:induction false} BitsOfI(x: Word, y: Word, z: Word, k: nat)
    requires k < 32
    ensures ShiftRight(I(x, y, z), k) % 2
         == if ShiftRight(x, k) % 2 == 0 && ShiftRight(z, k) % 2 == 1 then ShiftRight(y, k) % 2
            else 1 - ShiftRight(y, k) % 2
  {
    WordSize();
    OrNotIsMixed(32, x, y, z);
    MixedBitAt(32, OrNot, x, y, z, k);
  }

  /** T(i) is the integer part of 4294967296 times abs(sin(i + 1)). */
  function T(i: nat): Word
    requires i < 64
  {
    match i / 4
    case 0 => Pick(i % 4, 0xd76aa478, 0xe8c7b756, 0x242070db, 0xc1bdceee)
    case 1 => Pick(i % 4, 0xf57c0faf, 0x4787c62a, 0xa8304613, 0xfd469501)
    case 2 => Pick(i % 4, 0x698098d8, 0x8b44f7af, 0xffff5bb1, 0x895cd7be)
    case 3 => Pick(i % 4, 0x6b901122, 0xfd987193, 0xa679438e, 0x49b40821)
    case 4 => Pick(i % 4, 0xf61e2562, 0xc040b340, 0x265e5a51, 0xe9b6c7aa)
    case 5 => Pick(i % 4, 0xd62f105d, 0x02441453, 0xd8a1e681, 0xe7d3fbc8)
    case 6 => Pick(i % 4, 0x21e1cde6, 0xc33707d6, 0xf4d50d87, 0x455a14ed)
    case 7 => Pick(i % 4, 0xa9e3e905, 0xfcefa3f8, 0x676f02d9, 0x8d2a4c8a)
    case 8 => Pick(i % 4, 0xfffa3942, 0x8771f681, 0x6d9d6122, 0xfde5380c)
    case 9 => Pick(i % 4, 0xa4beea44, 0x4bdecfa9, 0xf6bb4b60, 0xbebfbc70)
    case 10 => Pick(i % 4, 0x289b7ec6, 0xeaa127fa, 0xd4ef3085, 0x04881d05)
    case 11 => Pick(i % 4, 0xd9d4d039, 0xe6db99e5, 0x1fa27cf8, 0xc4ac5665)
    case 12 => Pick(i % 4, 0xf4292244, 0x432aff97, 0xab9423a7, 0xfc93a039)
    case 13 => Pick(i % 4, 0x655b59c3, 0x8f0ccc92, 0xffeff47d, 0x85845dd1)
    case 14 => Pick(i % 4, 0x6fa87e4f, 0xfe2ce6e0, 0xa3014314, 0x4e0811a1)
    case _ => Pick(i % 4, 0xf7537e82, 0xbd3af235, 0x2ad7d2bb, 0xeb86d391)
  }

  function Pick(j: nat, w0: Word, w1: Word, w2: Word, w3: Word): Word {
    if j == 0 then w0 else if j == 1 then w1 else if j == 2 then w2 else w3
  }

  function RotateLeft(x: Word, s: nat): Word
    requires 0 < s < 32
  {
    Or(Shl(x, s), Shr(x, 32 - s))
  }

  /** Rotation as arithmetic: the low 32 - s bits l move up by s, the high s bits h to the bottom. */
  lemma {:induction false} RotatedValue(x: Word, s: nat, h: nat, l: nat, p: nat, q: nat)
    requires 0 < s < 32 && p == Pow2(s) && q == Pow2(32 - s) && l < q && x == h * q + l
    ensures RotateLeft(x, s) == l * p + h
  {
    WordSize();
    Pow2Add(32 - s, s);
    DivModUnique(x, h, l, q);
    ShiftRightQuotient(x, 32 - s);
    ShiftLeftProduct(x, s);
    HighPart(x, h, l, p, q);
    OrIsSum(32, l, h, s);
  }

  lemma {:induction false} HighPart(x: Word, h: nat, l: nat, p: nat, q: nat)
    requires 0 < p && 0 < q && q * p == 0x1_0000_0000 && l < q && x == h * q + l
    ensures x * p % 0x1_0000_0000 == l * p && h < p
  {
    MulGap(l, q, p);
    MulAssociative(h, q, p);
    Distribute(h * q, l, p);
    DivModUnique(x * p, h, l * p, 0x1_0000_0000);
    if p < h { MulGap(p, h, q); }
  }

  function Mix(i: nat, b: Word, c: Word, d: Word): Word {
    if i < 16 then F(b, c, d) else if i < 32 then G(b, c, d) else if i < 48 then H(b, c, d) else I(b, c, d)
  }

  /** The message word used by operation i. */
  function WordIndex(i: nat): (k: nat)
    ensures k < 16
  {
    if i < 16 then i else if i < 32 then (5 * i + 1) % 16 else if i < 48 then (3 * i + 5) % 16 else (7 * i) % 16
  }

  function ShiftAmount(i: nat): (s: nat)
    ensures 0 < s < 32
  {
    if i < 16 then Pick(i % 4, 7, 12, 17, 22)
    else if i < 32 then Pick(i % 4, 5, 9, 14, 20)
    else if i < 48 then Pick(i % 4, 4, 11, 16, 23)
    else Pick(i % 4, 6, 10, 15, 21)
  }

  /** Operation i on the registers in the order it names them; the next operation names them one place on. */
  function Operation(i: nat, r: Registers, x: seq<Word>): Registers
    requires i < 64 && |x| == 16
  {
    var sum := Add(Add(Add(r.a, Mix(i, r.b, r.c, r.d)), x[WordIndex(i)]), T(i));
    Registers(r.d, Add(r.b, RotateLeft(sum, ShiftAmount(i))), r.b, r.c)
  }

  /** The first n of the 64 operations. */
  function Operations(n: nat, r: Registers, x: seq<Word>): Registers
    requires n <= 64 && |x| == 16
  {
    if n == 0 then r else Operation(n - 1, Operations(n - 1, r, x), x)
  }

  lemma {:induction false} OneMore(i: nat, r: Registers, x: seq<Word>)
    requires i < 64 && |x| == 16
    ensures Operations(i + 1, r, x) == Operation(i, Operations(i, r, x), x)
  {
  }

  /** A record of the registers before each operation and after the last. */
  ghost predicate IsTrace(trace: seq<Registers>, x: seq<Word>) {
    |trace| == 65 && |x| == 16 && forall i {:trigger Follows(trace, x, i)} :: 0 <= i < 64 ==> Follows(trace, x, i)
  }

  ghost predicate Follows(trace: seq<Registers>, x: seq<Word>, i: nat)
    requires |trace| == 65 && |x| == 16 && i < 64
  {
    trace[i + 1] == Operation(i, trace[i], x)
  }

  // ----------------------------------------------------------- whole messages

  function LittleEndian(b: seq<Byte>): Word
    requires |b| == 4
  {
    var b0: nat, b1: nat, b2: nat, b3: nat := b[0], b[1], b[2], b[3];
    b0 + 0x100 * b1 + 0x10000 * b2 + 0x1000000 * b3
  }

  function Bytes(w: Word): (r: seq<Byte>)
    ensures |r| == 4
  {
    [w % 0x100, w / 0x100 % 0x100, w / 0x10000 % 0x100, w / 0x1000000]
  }

  /** Byte j has weight 256^j, both ways. */
  lemma {:induction false} ByteWeights(w: Word, b: seq<Byte>)
    requires |b| == 4
    ensures LittleEndian(b) == b[0] as nat + 256 * b[1] as nat + 65536 * b[2] as nat + 16777216 * b[3] as nat
    ensures LittleEndian(Bytes(w)) == w && Bytes(LittleEndian(b)) == b
  {
    var n := LittleEndian(b) as nat;
    DivModUnique(n, b[1] as nat + 0x100 * b[2] as nat + 0x10000 * b[3] as nat, b[0], 0x100);
    DivModUnique(n, b[2] as nat + 0x100 * b[3] as nat, b[0] as nat + 0x100 * b[1] as nat, 0x10000);
    DivModUnique(n, b[3], b[0] as nat + 0x100 * b[1] as nat + 0x10000 * b[2] as nat, 0x1000000);
    DivModUnique(n / 0x100, b[2] as nat + 0x100 * b[3] as nat, b[1], 0x100);
    DivModUnique(n / 0x10000, b[3], b[2], 0x100);
    WordFromBytes(w);
  }

  lemma {:induction false} WordFromBytes(w: Word)
    ensures LittleEndian(Bytes(w)) == w
  {
    var q1, q2, q3 := w / 0x100, w / 0x10000, w / 0x1000000;
    assert w == 0x100 * q1 + w % 0x100 && q1 == 0x100 * q2 + q1 % 0x100 && q2 == 0x100 * q3 + q2 % 0x100;
  }

  function BlockWords(block: seq<Byte>): seq<Word>
    requires |block| == 64
  {
    seq(16, i requires 0 <= i < 16 => LittleEndian(block[4 * i..4 * i + 4]))
  }

  function AddRegisters(r: Registers, s: Registers): Registers {
    Registers(Add(r.a, s.a), Add(r.b, s.b), Add(r.c, s.c), Add(r.d, s.d))
  }

  /** The compression of one 64-byte block. */
  function Compress(r: Registers, block: seq<Byte>): Registers {
    if |block| == 64 then AddRegisters(Operations(64, r, BlockWords(block)), r) else r
  }

  /** Folds a block function over the whole blocks of a message. */
  function Fold(step: (Registers, seq<Byte>) -> Registers, r: Registers, m: seq<Byte>): Registers
    decreases |m|
  {
    if |m| < 64 then r else Fold(step, step(r, m[..64]), m[64..])
  }

  function Zeros(n: nat): (z: seq<Byte>)
    ensures |z| == n && forall i :: 0 <= i < n ==> z[i] == 0
  {
    seq(n, _ => 0)
  }

  /** A one bit, then zero bits until the length is 56 modulo 64 bytes. */
  function Padding(length: nat): (p: seq<Byte>)
    ensures (length + |p|) % 64 == 56 && 1 <= |p| <= 64
    ensures p[0] == 0x80 && forall i :: 0 < i < |p| ==> p[i] == 0
  {
    [0x80] + Zeros((119 - length % 64) % 64)
  }

  /** The bit count modulo 2^64, low-order word first. */
  function LengthField(length: nat): (f: seq<Byte>)
    ensures |f| == 8
  {
    var bits := 8 * length % 0x1_0000_0000_0000_0000;
    Bytes(bits % 0x1_0000_0000) + Bytes(bits / 0x1_0000_0000)
  }

  /** The two words of the field are the bit count modulo 2^64. */
  lemma {:induction false} LengthFieldValue(length: nat)
    ensures var f := LengthField(length);
            LittleEndian(f[..4]) as nat + 0x1_0000_0000 * LittleEndian(f[4..]) as nat
            == 8 * length % 0x1_0000_0000_0000_0000
  {
    var bits := 8 * length % 0x1_0000_0000_0000_0000;
    ByteWeights(bits % 0x1_0000_0000, [0, 0, 0, 0]);
    ByteWeights(bits / 0x1_0000_0000, [0, 0, 0, 0]);
    assert LengthField(length)[..4] == Bytes(bits % 0x1_0000_0000);
    assert LengthField(length)[4..] == Bytes(bits / 0x1_0000_0000);
  }

  /** The message with padding and length: whole blocks. */
  function Padded(m: seq<Byte>): seq<Byte> {
    m + Padding(|m|) + LengthField(|m|)
  }

  function Output(r: Registers): (o: seq<Byte>)
    ensures |o| == 16
  {
    Bytes(r.a) + Bytes(r.b) + Bytes(r.c) + Bytes(r.d)
  }

  /** The output is a, b, c and d, each with its low-order byte first. */
  lemma {:induction false} OutputBytes(r: Registers)
    ensures var o := Output(r);
            && LittleEndian(o[0..4]) == r.a && LittleEndian(o[4..8]) == r.b
            && LittleEndian(o[8..12]) == r.c && LittleEndian(o[12..16]) == r.d
  {
    var o := Output(r);
    assert o[0..4] == Bytes(r.a) && o[4..8] == Bytes(r.b) && o[8..12] == Bytes(r.c) && o[12..16] == Bytes(r.d);
    ByteWeights(r.a, o[0..4]);
    ByteWeights(r.b, o[4..8]);
    ByteWeights(r.c, o[8..12]);
    ByteWeights(r.d, o[12..16]);
  }

  function DigestWith(step: (Registers, seq<Byte>) -> Registers, m: seq<Byte>): seq<Byte> {
    Output(Fold(step, INITIAL, Padded(m)))
  }

  /** The MD5 digest of a message. */
  function Digest(m: seq<Byte>): seq<Byte> {
    DigestWith(Compress, m)
  }

  /** A block function that computes the MD5 compression. */
  ghost predicate ComputesCompress(step: (Registers, seq<Byte>) -> Registers) {
    forall r: Registers, block: seq<Byte> {:trigger CompressesAt(step, r, block)} :: CompressesAt(step, r, block)
  }

  ghost predicate CompressesAt(step: (Registers, seq<Byte>) -> Registers, r: Registers, block: seq<Byte>) {
    step(r, block) == Compress(r, block)
  }

  lemma {:induction false} CompressComputesItself()
    ensures ComputesCompress(Compress)
  {
    forall r: Registers, block: seq<Byte>
      ensures CompressesAt(Compress, r, block)
    {
    }
  }

  lemma {:induction false} FoldAppend(step: (Registers, seq<Byte>) -> Registers, r: Registers, x: seq<Byte>, k: nat,
                                      y: seq<Byte>)
    requires |x| == 64 * k
    ensures Fold(step, r, x + y) == Fold(step, Fold(step, r, x), y)
    decreases k
  {
    if k == 0 {
      assert x + y == y;
    } else {
      assert (x + y)[..64] == x[..64] && (x + y)[64..] == x[64..] + y;
      FoldAppend(step, step(r, x[..64]), x[64..], k - 1, y);
    }
  }

  lemma {:induction false} FoldBlock(step: (Registers, seq<Byte>) -> Registers, r: Registers, x: seq<Byte>)
    requires |x| == 64
    ensures Fold(step, r, x) == step(r, x)
  {
    assert x[..64] == x && x[64..] == [];
    assert Fold(step, step(r, x), []) == step(r, x);
  }
}
