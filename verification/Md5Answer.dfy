/**
 The digest of "abc" given in appendix A.5 of RFC 1321, computed from the
 definitions.  Words are taken apart into bytes, on which the bitwise
 operations are Dafny's own.
 */
module Md5Answer {
  import opened PowersOfTwo
  import opened Words
  import opened Rfc1321

  datatype Quad = Quad(b3: bv8, b2: bv8, b1: bv8, b0: bv8)

  function Number(b3: nat, b2: nat, b1: nat, b0: nat): nat { 256 * (256 * (256 * b3 + b2) + b1) + b0 }

  function WordOf(b3: Byte, b2: Byte, b1: Byte, b0: Byte): Word { Number(b3, b2, b1, b0) }

  function Value(x: Quad): Word { WordOf(x.b3 as nat, x.b2 as nat, x.b1 as nat, x.b0 as nat) }

  // -------------------------------------------------------- operations on bytes

  function MixedByte(m: Mixer, x: bv8, y: bv8, z: bv8): bv8 {
    match m
    case SelectByX => (x & y) | (!x & z)
    case SelectByZ => (x & z) | (y & !z)
    case Parity => x ^ y ^ z
    case OrNot => y ^ (x | !z)
  }

  function MixedQuad(m: Mixer, x: Quad, y: Quad, z: Quad): Quad {
    Quad(MixedByte(m, x.b3, y.b3, z.b3), MixedByte(m, x.b2, y.b2, z.b2),
         MixedByte(m, x.b1, y.b1, z.b1), MixedByte(m, x.b0, y.b0, z.b0))
  }

  /** n bits of three numbers mixed to one, known by its halving law only. */
  type Mixing = (nat, nat, nat, nat) -> nat

  ghost predicate HalvesAt(f: Mixing, m: Mixer, n: nat, x: nat, y: nat, z: nat) {
    f(n + 1, x, y, z) == 2 * f(n, x / 2, y / 2, z / 2) + MixedBit(m, x % 2, y % 2, z % 2)
  }

  ghost predicate IsMixing(f: Mixing, m: Mixer) {
    && (forall x, y, z :: f(0, x, y, z) == 0)
    && forall n: nat, x: nat, y: nat, z: nat {:trigger HalvesAt(f, m, n, x, y, z)} :: HalvesAt(f, m, n, x, y, z)
  }

  /** One more bit. */
  lemma {:induction false} OneMoreBit(f: Mixing, m: Mixer, n: nat, x: nat, y: nat, z: nat, i: nat, j: nat, k: nat,
                                      u: nat, v: nat, w: nat)
    requires IsMixing(f, m) && i < 2 && j < 2 && k < 2 && u == 2 * x + i && v == 2 * y + j && w == 2 * z + k
    ensures f(n + 1, u, v, w) == 2 * f(n, x, y, z) + MixedBit(m, i, j, k)
  {
    assert HalvesAt(f, m, n, u, v, w);
    assert u / 2 == x && v / 2 == y && w / 2 == z && u % 2 == i && v % 2 == j && w % 2 == k;
  }

  lemma {:induction false} LowBit(b: bv8)
    ensures b as nat == 2 * ((b >> 1) as nat) + (b & 1) as nat && (b & 1) as nat < 2
  {
  }

  lemma {:induction false} MixedLow(m: Mixer, x: bv8, y: bv8, z: bv8)
    ensures (MixedByte(m, x, y, z) & 1) as nat == MixedBit(m, (x & 1) as nat, (y & 1) as nat, (z & 1) as nat)
  {
  }

  lemma {:induction false} MixedRest(m: Mixer, x: bv8, y: bv8, z: bv8, mask: bv8)
    ensures (MixedByte(m, x, y, z) & mask) >> 1 == MixedByte(m, x >> 1, y >> 1, z >> 1) & (mask >> 1)
  {
  }

  lemma {:induction false} MaskedLow(w: bv8, mask: bv8)
    requires (mask & 1) as nat == 1
    ensures w & mask & 1 == w & 1
  {
  }

  /** The low bit of a masked mixed byte, and the others. */
  lemma {:induction false} MixedParts(m: Mixer, x: bv8, y: bv8, z: bv8, mask: bv8)
    requires (mask & 1) as nat == 1
    ensures (MixedByte(m, x, y, z) & mask) as nat
         == 2 * ((MixedByte(m, x >> 1, y >> 1, z >> 1) & (mask >> 1)) as nat)
            + MixedBit(m, (x & 1) as nat, (y & 1) as nat, (z & 1) as nat)
  {
    MixedRest(m, x, y, z, mask);
    MixedLow(m, x, y, z);
    MaskedLow(MixedByte(m, x, y, z), mask);
    LowBit(MixedByte(m, x, y, z) & mask);
  }

  lemma {:induction false} MaskHalves(n: nat, mask: bv8)
    requires n > 0 && mask as nat == Pow2(n) - 1
    ensures (mask & 1) as nat == 1 && (mask >> 1) as nat == Pow2(n - 1) - 1
  {
    LowBit(mask);
  }

  lemma {:induction false} NoBits(mask: bv8, w: bv8)
    requires mask as nat == 0
    ensures (w & mask) as nat == 0
  {
  }

  /** n bits of a byte, counted by a mask of n ones. */
  lemma {:induction false} MixedByteBits(f: Mixing, m: Mixer, n: nat, mask: bv8, x: bv8, y: bv8, z: bv8)
    requires IsMixing(f, m) && n <= 8 && mask as nat == Pow2(n) - 1
    ensures f(n, x as nat, y as nat, z as nat) == (MixedByte(m, x, y, z) & mask) as nat
    decreases n
  {
    if n == 0 {
      NoBits(mask, MixedByte(m, x, y, z));
    } else {
      MaskHalves(n, mask);
      MixedByteBits(f, m, n - 1, mask >> 1, x >> 1, y >> 1, z >> 1);
      LowBit(x);
      LowBit(y);
      LowBit(z);
      OneMoreBit(f, m, n - 1, (x >> 1) as nat, (y >> 1) as nat, (z >> 1) as nat,
                 (x & 1) as nat, (y & 1) as nat, (z & 1) as nat, x as nat, y as nat, z as nat);
      MixedParts(m, x, y, z, mask);
    }
  }

  lemma {:induction false} Halves(x: nat, e: nat, i: nat)
    requires e > 0
    ensures ShiftLeft(x, e) + i == 2 * (ShiftLeft(x, e - 1) + i / 2) + i % 2
  {
  }

  /** High and low parts are mixed apart. */
  lemma {:induction false} MixedAppend(f: Mixing, m: Mixer, n: nat, e: nat, x: nat, y: nat, z: nat,
                                       i: nat, j: nat, k: nat)
    requires IsMixing(f, m) && i < Pow2(e) && j < Pow2(e) && k < Pow2(e)
    ensures f(n + e, ShiftLeft(x, e) + i, ShiftLeft(y, e) + j, ShiftLeft(z, e) + k)
         == ShiftLeft(f(n, x, y, z), e) + f(e, i, j, k)
    decreases e
  {
    if e > 0 {
      MixedAppend(f, m, n, e - 1, x, y, z, i / 2, j / 2, k / 2);
      Halves(x, e, i);
      Halves(y, e, j);
      Halves(z, e, k);
      OneMoreBit(f, m, n + e - 1, ShiftLeft(x, e - 1) + i / 2, ShiftLeft(y, e - 1) + j / 2, ShiftLeft(z, e - 1) + k / 2,
                 i % 2, j % 2, k % 2, ShiftLeft(x, e) + i, ShiftLeft(y, e) + j, ShiftLeft(z, e) + k);
      OneMoreBit(f, m, e - 1, i / 2, j / 2, k / 2, i % 2, j % 2, k % 2, i, j, k);
    }
  }

  lemma {:induction false} EightPlaces(x: nat)
    ensures ShiftLeft(x, 8) == 256 * x && Pow2(8) == 256
  {
    ShiftLeftProduct(x, 8);
    assert Pow2(8) == 256;
  }

  lemma {:induction false} MixedLastByte(f: Mixing, m: Mixer, n: nat, x: nat, y: nat, z: nat, i: nat, j: nat, k: nat)
    requires IsMixing(f, m) && i < 256 && j < 256 && k < 256
    ensures f(n + 8, 256 * x + i, 256 * y + j, 256 * z + k) == 256 * f(n, x, y, z) + f(8, i, j, k)
  {
    EightPlaces(x);
    EightPlaces(y);
    EightPlaces(z);
    EightPlaces(f(n, x, y, z));
    MixedAppend(f, m, n, 8, x, y, z, i, j, k);
  }

  lemma {:induction false} MixedNumber(f: Mixing, m: Mixer, x3: nat, x2: nat, x1: nat, x0: nat,
                                       y3: nat, y2: nat, y1: nat, y0: nat, z3: nat, z2: nat, z1: nat, z0: nat)
    requires IsMixing(f, m) && x2 < 256 && x1 < 256 && x0 < 256 && y2 < 256 && y1 < 256 && y0 < 256
    requires z2 < 256 && z1 < 256 && z0 < 256
    ensures f(32, Number(x3, x2, x1, x0), Number(y3, y2, y1, y0), Number(z3, z2, z1, z0))
         == Number(f(8, x3, y3, z3), f(8, x2, y2, z2), f(8, x1, y1, z1), f(8, x0, y0, z0))
  {
    var a, b, c := 256 * x3 + x2, 256 * y3 + y2, 256 * z3 + z2;
    MixedLastByte(f, m, 8, x3, y3, z3, x2, y2, z2);
    MixedLastByte(f, m, 16, a, b, c, x1, y1, z1);
    MixedLastByte(f, m, 24, 256 * a + x1, 256 * b + y1, 256 * c + z1, x0, y0, z0);
  }

  lemma {:induction false} WholeByte(f: Mixing, m: Mixer, x: bv8, y: bv8, z: bv8)
    requires IsMixing(f, m)
    ensures f(8, x as nat, y as nat, z as nat) == MixedByte(m, x, y, z) as nat
  {
    assert Pow2(8) == 256;
    MixedByteBits(f, m, 8, 0xff, x, y, z);
  }

  lemma {:induction false} MixedByBytes(f: Mixing, m: Mixer, x: Quad, y: Quad, z: Quad)
    requires IsMixing(f, m)
    ensures f(32, Value(x), Value(y), Value(z)) == Value(MixedQuad(m, x, y, z))
  {
    WholeByte(f, m, x.b3, y.b3, z.b3);
    WholeByte(f, m, x.b2, y.b2, z.b2);
    WholeByte(f, m, x.b1, y.b1, z.b1);
    WholeByte(f, m, x.b0, y.b0, z.b0);
    MixedNumber(f, m, x.b3 as nat, x.b2 as nat, x.b1 as nat, x.b0 as nat,
                y.b3 as nat, y.b2 as nat, y.b1 as nat, y.b0 as nat,
                z.b3 as nat, z.b2 as nat, z.b1 as nat, z.b0 as nat);
  }

  lemma {:induction false} MixedBitsMix(m: Mixer) returns (f: Mixing)
    ensures IsMixing(f, m) && forall n, x, y, z :: f(n, x, y, z) == MixedBits(n, m, x, y, z)
  {
    f := (n, x, y, z) => MixedBits(n, m, x, y, z);
    forall n: nat, x: nat, y: nat, z: nat
      ensures HalvesAt(f, m, n, x, y, z)
    {
    }
  }

  function MixerOf(i: nat): Mixer {
    if i < 16 then SelectByX else if i < 32 then SelectByZ else if i < 48 then Parity else OrNot
  }

  lemma {:induction false} MixIsMixed(i: nat, x: Word, y: Word, z: Word)
    ensures Mix(i, x, y, z) == MixedBits(32, MixerOf(i), x, y, z)
  {
    WordSize();
    if i < 16 {
      SelectIsMixed(32, x, y, z);
    } else if i < 32 {
      SelectByZIsMixed(32, x, y, z);
    } else if i < 48 {
      ParityIsMixed(32, x, y, z);
    } else {
      OrNotIsMixed(32, x, y, z);
    }
  }

  lemma {:induction false} MixByBytes(i: nat, b: Quad, c: Quad, d: Quad)
    ensures Mix(i, Value(b), Value(c), Value(d)) == Value(MixedQuad(MixerOf(i), b, c, d))
  {
    MixIsMixed(i, Value(b), Value(c), Value(d));
    var f := MixedBitsMix(MixerOf(i));
    MixedByBytes(f, MixerOf(i), b, c, d);
  }

  // ------------------------------------------------------------- one operation

  function Values(a: Quad, b: Quad, c: Quad, d: Quad): Registers {
    Registers(Value(a), Value(b), Value(c), Value(d))
  }

  /** The sum that operation i rotates. */
  function Rotand(i: nat, a: Quad, b: Quad, c: Quad, d: Quad, x: Word): Word
    requires i < 64
  {
    Add(Add(Add(Value(a), Value(MixedQuad(MixerOf(i), b, c, d))), x), T(i))
  }

  /** 2^s for the shift amounts of MD5. */
  function Power(s: nat): nat {
    match s
    case 4 => 0x10
    case 5 => 0x20
    case 6 => 0x40
    case 7 => 0x80
    case 9 => 0x200
    case 10 => 0x400
    case 11 => 0x800
    case 12 => 0x1000
    case 14 => 0x4000
    case 15 => 0x8000
    case 16 => 0x1_0000
    case 17 => 0x2_0000
    case 20 => 0x10_0000
    case 21 => 0x20_0000
    case 22 => 0x40_0000
    case _ => 0x80_0000
  }

  lemma {:induction false} PowerIsPow2(i: nat)
    ensures Power(ShiftAmount(i)) == Pow2(ShiftAmount(i))
  {
    assert Pow2(4) == 0x10 && Pow2(8) == 0x100;
    assert Pow2(12) == 0x1000 && Pow2(16) == 0x1_0000;
    assert Pow2(20) == 0x10_0000 && Pow2(23) == 0x80_0000;
  }

  lemma {:induction false} OtherPower(s: nat, p: nat, q: nat, n: nat)
    requires s <= n && p == Pow2(s) && q * p == Pow2(n)
    ensures q == Pow2(n - s)
  {
    Pow2Add(n - s, s);
    SameFactor(q, Pow2(n - s), p);
  }

  lemma {:induction false} SameFactor(q: nat, r: nat, p: nat)
    requires p > 0 && q * p == r * p
    ensures q == r
  {
    if q < r { MulGap(q, r, p); } else if r < q { MulGap(r, q, p); }
  }

  lemma {:induction false} Rotated(i: nat, sum: Word, p: nat, q: nat, h: nat, l: nat)
    requires p == Power(ShiftAmount(i)) && q * p == 0x1_0000_0000 && l < q && sum == h * q + l
    ensures RotateLeft(sum, ShiftAmount(i)) == l * p + h
  {
    PowerIsPow2(i);
    WordSize();
    OtherPower(ShiftAmount(i), p, q, 32);
    RotatedValue(sum, ShiftAmount(i), h, l, p, q);
  }

  lemma {:induction false} NextWord(i: nat, r: Registers, f: Word, out: Word, p: nat, q: nat, h: nat, l: nat, rot: Word,
                                    x: seq<Word>, trace: seq<Registers>)
    requires IsTrace(trace, x) && i < 64 && trace[i] == r && f == Mix(i, r.b, r.c, r.d)
    requires p == Power(ShiftAmount(i)) && q * p == 0x1_0000_0000 && l < q
    requires Add(Add(Add(r.a, f), x[WordIndex(i)]), T(i)) == h * q + l && rot == l * p + h && out == Add(r.b, rot)
    ensures trace[i + 1] == Registers(r.d, out, r.b, r.c)
  {
    Rotated(i, h * q + l, p, q, h, l);
    assert Follows(trace, x, i);
  }

  /**
   Operation i of a trace on message word xk, whose sum is h * q + l: rotated
   it is rot, and added to b it is out.
   */
  lemma {:induction false} Next(i: nat, a: Quad, b: Quad, c: Quad, d: Quad, out: Quad, xk: Word, p: nat, q: nat,
                                h: nat, l: nat, rot: Word, x: seq<Word>, trace: seq<Registers>)
    requires IsTrace(trace, x) && i < 64 && trace[i] == Values(a, b, c, d) && xk == x[WordIndex(i)]
    requires p == Power(ShiftAmount(i)) && q * p == 0x1_0000_0000 && l < q
    requires Rotand(i, a, b, c, d, xk) == h * q + l && rot == l * p + h && Value(out) == Add(Value(b), rot)
    ensures trace[i + 1] == Values(d, out, b, c)
  {
    MixByBytes(i, b, c, d);
    NextWord(i, trace[i], Value(MixedQuad(MixerOf(i), b, c, d)), Value(out), p, q, h, l, rot, x, trace);
  }

  // ------------------------------------------------------------------------ abc

  /** A trace of the one block of the padded message: 61 62 63 80 in the first word, 24 bits in the fifteenth. */
  ghost predicate AbcTrace(x: seq<Word>, trace: seq<Registers>) {
    && IsTrace(trace, x) && trace[0] == Values(R0, R3, R2, R1)
    && x[0] == 0x80636261 && x[14] == 24 && forall i :: 0 < i < 16 && i != 14 ==> x[i] == 0
  }

  // The registers in the order they are computed: the initial ones, then one for each operation.
  const R0: Quad := Quad(0x67, 0x45, 0x23, 0x01)
  const R1: Quad := Quad(0x10, 0x32, 0x54, 0x76)
  const R2: Quad := Quad(0x98, 0xba, 0xdc, 0xfe)
  const R3: Quad := Quad(0xef, 0xcd, 0xab, 0x89)
  const R4: Quad := Quad(0xd6, 0xd1, 0x17, 0xb4)
  const R5: Quad := Quad(0x34, 0x4a, 0x84, 0x32)
  const R6: Quad := Quad(0x2f, 0x6f, 0xbd, 0x72)
  const R7: Quad := Quad(0x7a, 0xd9, 0x56, 0xf2)
  const R8: Quad := Quad(0xc7, 0x37, 0x41, 0xef)
  const R9: Quad := Quad(0x8b, 0xac, 0x30, 0x51)
  const R10: Quad := Quad(0x20, 0x7d, 0xc6, 0x7b)
  const R11: Quad := Quad(0x92, 0x8d, 0x99, 0xf6)
  const R12: Quad := Quad(0x85, 0x4b, 0x37, 0x12)
  const R13: Quad := Quad(0x74, 0xe2, 0xf2, 0x84)
  const R14: Quad := Quad(0x30, 0x20, 0x40, 0x1c)
  const R15: Quad := Quad(0x5e, 0xd4, 0x95, 0x96)
  const R16: Quad := Quad(0xdd, 0xa9, 0xb9, 0xa6)
  const R17: Quad := Quad(0xa1, 0x05, 0x18, 0x95)
  const R18: Quad := Quad(0xe3, 0x96, 0x85, 0x6b)
  const R19: Quad := Quad(0x72, 0xaf, 0xf2, 0xe0)
  const R20: Quad := Quad(0x3e, 0x9e, 0x91, 0x26)
  const R21: Quad := Quad(0x4a, 0x1d, 0x80, 0x4e)
  const R22: Quad := Quad(0xe2, 0x5e, 0x16, 0x52)
  const R23: Quad := Quad(0xb5, 0xb2, 0x04, 0xe4)
  const R24: Quad := Quad(0x59, 0xa8, 0xff, 0xda)
  const R25: Quad := Quad(0x6d, 0x00, 0x2f, 0x1e)
  const R26: Quad := Quad(0xab, 0xfc, 0x79, 0x20)
  const R27: Quad := Quad(0x47, 0x09, 0x2c, 0x07)
  const R28: Quad := Quad(0xb7, 0xf2, 0x68, 0xcf)
  const R29: Quad := Quad(0x09, 0x38, 0x8e, 0xff)
  const R30: Quad := Quad(0xfe, 0x16, 0x23, 0xb1)
  const R31: Quad := Quad(0x78, 0x6a, 0xcb, 0x8f)
  const R32: Quad := Quad(0x79, 0x0a, 0x77, 0xfb)
  const R33: Quad := Quad(0x9f, 0x47, 0xe4, 0xf8)
  const R34: Quad := Quad(0xa6, 0x28, 0x84, 0xaa)
  const R35: Quad := Quad(0x72, 0x63, 0x42, 0xd3)
  const R36: Quad := Quad(0xb3, 0x70, 0x7e, 0xbf)
  const R37: Quad := Quad(0x60, 0x12, 0x7b, 0x2e)
  const R38: Quad := Quad(0x8d, 0x21, 0x2f, 0xf5)
  const R39: Quad := Quad(0x3b, 0x08, 0x75, 0xc7)
  const R40: Quad := Quad(0x21, 0xb1, 0x17, 0xb9)
  const R41: Quad := Quad(0x6e, 0x74, 0x29, 0xd5)
  const R42: Quad := Quad(0x35, 0x75, 0x22, 0x7e)
  const R43: Quad := Quad(0x5a, 0x2f, 0x5e, 0xa5)
  const R44: Quad := Quad(0x11, 0xde, 0x17, 0x79)
  const R45: Quad := Quad(0xfa, 0xdc, 0xaa, 0x38)
  const R46: Quad := Quad(0x31, 0xc4, 0x65, 0xca)
  const R47: Quad := Quad(0x4c, 0x61, 0x24, 0xf4)
  const R48: Quad := Quad(0x7f, 0x2e, 0x50, 0x7b)
  const R49: Quad := Quad(0x99, 0xd9, 0x67, 0x9d)
  const R50: Quad := Quad(0x8f, 0xae, 0x63, 0x99)
  const R51: Quad := Quad(0x7b, 0xeb, 0x97, 0x00)
  const R52: Quad := Quad(0x7b, 0x20, 0x1d, 0xf8)
  const R53: Quad := Quad(0xf4, 0xe8, 0xe9, 0x6e)
  const R54: Quad := Quad(0xb2, 0x98, 0xce, 0xfd)
  const R55: Quad := Quad(0x8b, 0xf0, 0x25, 0xc4)
  const R56: Quad := Quad(0x06, 0xcc, 0x5e, 0x8a)
  const R57: Quad := Quad(0x5b, 0x0d, 0x97, 0xaa)
  const R58: Quad := Quad(0x7d, 0x63, 0x2d, 0xd0)
  const R59: Quad := Quad(0x3b, 0xfa, 0x2c, 0x27)
  const R60: Quad := Quad(0x7f, 0x81, 0xcc, 0x35)
  const R61: Quad := Quad(0x09, 0x44, 0x54, 0xab)
  const R62: Quad := Quad(0x4f, 0x9d, 0xbe, 0x3f)
  const R63: Quad := Quad(0x73, 0x27, 0xd6, 0x04)
  const R64: Quad := Quad(0x31, 0x0a, 0xde, 0x8f)
  const R65: Quad := Quad(0x62, 0x4d, 0x8c, 0xb2)
  const R66: Quad := Quad(0xe4, 0x84, 0xb9, 0xd8)
  const R67: Quad := Quad(0xc0, 0x82, 0x26, 0xb3)

  lemma {:induction false} Abc00(x: seq<Word>, trace: seq<Registers>)
    requires AbcTrace(x, trace)
    ensures trace[2] == Values(R2, R5, R4, R3)
  {
    Next(0, R0, R3, R2, R1, R4, 0x80636261, 0x80, 0x2000000, 0x2b, 0x1ce06d8, 0xe7036c2b, x, trace);
    Next(1, R1, R4, R3, R2, R5, 0x0, 0x1000, 0x100000, 0xc7e, 0x5d796, 0x5d796c7e, x, trace);
  }

  lemma {:induction false} Abc02(x: seq<Word>, trace: seq<Registers>)
    requires AbcTrace(x, trace)
    ensures trace[4] == Values(R4, R7, R6, R5)
  {
    Abc00(x, trace);
    Next(2, R2, R5, R4, R3, R6, 0x0, 0x20000, 0x8000, 0x13940, 0x7d92, 0xfb253940, x, trace);
    Next(3, R3, R6, R5, R4, R7, 0x0, 0x400000, 0x400, 0x299980, 0x12d, 0x4b699980, x, trace);
  }

  lemma {:induction false} Abc04(x: seq<Word>, trace: seq<Registers>)
    requires AbcTrace(x, trace)
    ensures trace[8] == Values(R8, R11, R10, R9)
  {
    Abc02(x, trace);
    Next(4, R4, R7, R6, R5, R8, 0x0, 0x80, 0x2000000, 0x7d, 0x98bbd5, 0x4c5deafd, x, trace);
    Next(5, R5, R8, R7, R6, R9, 0x0, 0x1000, 0x100000, 0xe62, 0xc474e, 0xc474ee62, x, trace);
    Next(6, R6, R9, R8, R7, R10, 0x0, 0x20000, 0x8000, 0x1962a, 0x4a68, 0x94d1962a, x, trace);
    Next(7, R7, R10, R9, R8, R11, 0x0, 0x400000, 0x400, 0xfd37b, 0x1c8, 0x720fd37b, x, trace);
  }

  lemma {:induction false} Abc08(x: seq<Word>, trace: seq<Registers>)
    requires AbcTrace(x, trace)
    ensures trace[12] == Values(R12, R15, R14, R13)
  {
    Abc04(x, trace);
    Next(8, R8, R11, R10, R9, R12, 0x0, 0x80, 0x2000000, 0x1c, 0x1e57b3a, 0xf2bd9d1c, x, trace);
    Next(9, R9, R12, R11, R10, R13, 0x0, 0x1000, 0x100000, 0xb72, 0xef97b, 0xef97bb72, x, trace);
    Next(10, R10, R13, R12, R11, R14, 0x0, 0x20000, 0x8000, 0x14d98, 0x5d9e, 0xbb3d4d98, x, trace);
    Next(11, R11, R14, R13, R12, R15, 0x0, 0x400000, 0x400, 0x34557a, 0xba, 0x2eb4557a, x, trace);
  }

  lemma {:induction false} Abc12(x: seq<Word>, trace: seq<Registers>)
    requires AbcTrace(x, trace)
    ensures trace[16] == Values(R16, R19, R18, R17)
  {
    Abc08(x, trace);
    Next(12, R12, R15, R14, R13, R16, 0x0, 0x80, 0x2000000, 0x10, 0xfdaa48, 0x7ed52410, x, trace);
    Next(13, R13, R16, R15, R14, R17, 0x0, 0x1000, 0x100000, 0xeef, 0xc35b5, 0xc35b5eef, x, trace);
    Next(14, R14, R17, R16, R15, R18, 0x18, 0x20000, 0x8000, 0x16cd6, 0x2148, 0x42916cd6, x, trace);
    Next(15, R15, R18, R17, R16, R19, 0x0, 0x400000, 0x400, 0x196d75, 0x23c, 0x8f196d75, x, trace);
  }

  lemma {:induction false} Abc16(x: seq<Word>, trace: seq<Registers>)
    requires AbcTrace(x, trace)
    ensures trace[20] == Values(R20, R23, R22, R21)
  {
    Abc12(x, trace);
    Next(16, R16, R19, R18, R17, R20, 0x0, 0x20, 0x8000000, 0x6, 0x65f74f2, 0xcbee9e46, x, trace);
    Next(17, R17, R20, R19, R18, R21, 0x0, 0x200, 0x800000, 0x128, 0x5bf77, 0xb7eef28, x, trace);
    Next(18, R18, R21, R20, R19, R22, 0x0, 0x4000, 0x40000, 0x1604, 0x26102, 0x98409604, x, trace);
    Next(19, R19, R22, R21, R20, R23, 0x80636261, 0x100000, 0x1000, 0x3ee92, 0xd35, 0xd353ee92, x, trace);
  }

  lemma {:induction false} Abc20(x: seq<Word>, trace: seq<Registers>)
    requires AbcTrace(x, trace)
    ensures trace[24] == Values(R24, R27, R26, R25)
  {
    Abc16(x, trace);
    Next(20, R20, R23, R22, R21, R24, 0x0, 0x20, 0x8000000, 0x16, 0x51fb7d7, 0xa3f6faf6, x, trace);
    Next(21, R21, R24, R23, R22, R25, 0x0, 0x200, 0x800000, 0x144, 0x9ab97, 0x13572f44, x, trace);
    Next(22, R22, R25, R24, R23, R26, 0x0, 0x4000, 0x40000, 0xa02, 0xfbf1, 0x3efc4a02, x, trace);
    Next(23, R23, R26, R25, R24, R27, 0x0, 0x100000, 0x1000, 0xcb2e7, 0x9b0, 0x9b0cb2e7, x, trace);
  }

  lemma {:induction false} Abc24(x: seq<Word>, trace: seq<Registers>)
    requires AbcTrace(x, trace)
    ensures trace[28] == Values(R28, R31, R30, R29)
  {
    Abc20(x, trace);
    Next(24, R24, R27, R26, R25, R28, 0x0, 0x20, 0x8000000, 0x8, 0x38749e6, 0x70e93cc8, x, trace);
    Next(25, R25, R28, R27, R26, R29, 0x18, 0x200, 0x800000, 0x30, 0x28a313, 0x51462630, x, trace);
    Next(26, R26, R29, R28, R27, R30, 0x0, 0x4000, 0x40000, 0x14b2, 0x3d376, 0xf4dd94b2, x, trace);
    Next(27, R27, R30, R29, R28, R31, 0x0, 0x100000, 0x1000, 0x4a7de, 0x7a5, 0x7a54a7de, x, trace);
  }

  lemma {:induction false} Abc28(x: seq<Word>, trace: seq<Registers>)
    requires AbcTrace(x, trace)
    ensures trace[32] == Values(R32, R35, R34, R33)
  {
    Abc24(x, trace);
    Next(28, R28, R31, R30, R29, R32, 0x0, 0x20, 0x8000000, 0xc, 0x4fd63, 0x9fac6c, x, trace);
    Next(29, R29, R32, R31, R30, R33, 0x0, 0x200, 0x800000, 0xfd, 0x131eb6, 0x263d6cfd, x, trace);
    Next(30, R30, R33, R32, R31, R34, 0x0, 0x4000, 0x40000, 0x1fb2, 0x1b82, 0x6e09fb2, x, trace);
    Next(31, R31, R34, R33, R32, R35, 0x0, 0x100000, 0x1000, 0xabe29, 0xcc3, 0xcc3abe29, x, trace);
  }

  lemma {:induction false} Abc32(x: seq<Word>, trace: seq<Registers>)
    requires AbcTrace(x, trace)
    ensures trace[36] == Values(R36, R39, R38, R37)
  {
    Abc28(x, trace);
    Next(32, R32, R35, R34, R33, R36, 0x0, 0x10, 0x10000000, 0xc, 0x410d3be, 0x410d3bec, x, trace);
    Next(33, R33, R36, R35, R34, R37, 0x0, 0x800, 0x200000, 0x46f, 0x15943f, 0xaca1fc6f, x, trace);
    Next(34, R34, R37, R36, R35, R38, 0x0, 0x10000, 0x10000, 0xb4c7, 0x2d0e, 0x2d0eb4c7, x, trace);
    Next(35, R35, R38, R37, R36, R39, 0x18, 0x800000, 0x200, 0x6745d2, 0x15b, 0xade745d2, x, trace);
  }

  lemma {:induction false} Abc36(x: seq<Word>, trace: seq<Registers>)
    requires AbcTrace(x, trace)
    ensures trace[40] == Values(R40, R43, R42, R41)
  {
    Abc32(x, trace);
    Next(36, R36, R39, R38, R37, R40, 0x0, 0x10, 0x10000000, 0x2, 0xe6a8a1f, 0xe6a8a1f2, x, trace);
    Next(37, R37, R40, R39, R38, R41, 0x0, 0x800, 0x200000, 0x21c, 0x99862, 0x4cc3121c, x, trace);
    Next(38, R38, R41, R40, R39, R42, 0x0, 0x10000, 0x10000, 0xf8a9, 0xc700, 0xc700f8a9, x, trace);
    Next(39, R39, R42, R41, R40, R43, 0x0, 0x800000, 0x200, 0x3a3c27, 0x49, 0x24ba3c27, x, trace);
  }

  lemma {:induction false} Abc40(x: seq<Word>, trace: seq<Registers>)
    requires AbcTrace(x, trace)
    ensures trace[44] == Values(R44, R47, R46, R45)
  {
    Abc36(x, trace);
    Next(40, R40, R43, R42, R41, R44, 0x0, 0x10, 0x10000000, 0x4, 0xb7aeb8d, 0xb7aeb8d4, x, trace);
    Next(41, R41, R44, R43, R42, R45, 0x80636261, 0x800, 0x200000, 0x2bf, 0x1d1fd2, 0xe8fe92bf, x, trace);
    Next(42, R42, R45, R44, R43, R46, 0x0, 0x10000, 0x10000, 0xbb92, 0x36e7, 0x36e7bb92, x, trace);
    Next(43, R43, R46, R45, R44, R47, 0x0, 0x800000, 0x200, 0x1cbf2a, 0x35, 0x1a9cbf2a, x, trace);
  }

  lemma {:induction false} Abc44(x: seq<Word>, trace: seq<Registers>)
    requires AbcTrace(x, trace)
    ensures trace[48] == Values(R48, R51, R50, R49)
  {
    Abc40(x, trace);
    Next(44, R44, R47, R46, R45, R48, 0x0, 0x10, 0x10000000, 0x7, 0x32cd2b8, 0x32cd2b87, x, trace);
    Next(45, R45, R48, R47, R46, R49, 0x0, 0x800, 0x200000, 0x722, 0x35562, 0x1aab1722, x, trace);
    Next(46, R46, R49, R48, R47, R50, 0x0, 0x10000, 0x10000, 0xfbfc, 0xf5d4, 0xf5d4fbfc, x, trace);
    Next(47, R47, R50, R49, R48, R51, 0x0, 0x800000, 0x200, 0x3d3367, 0x1d8, 0xec3d3367, x, trace);
  }

  lemma {:induction false} Abc48(x: seq<Word>, trace: seq<Registers>)
    requires AbcTrace(x, trace)
    ensures trace[52] == Values(R52, R55, R54, R53)
  {
    Abc44(x, trace);
    Next(48, R48, R51, R50, R49, R52, 0x80636261, 0x40, 0x4000000, 0x38, 0x3fcd21b, 0xff3486f8, x, trace);
    Next(49, R49, R52, R51, R50, R53, 0x0, 0x400, 0x400000, 0x376, 0x1e7232, 0x79c8cb76, x, trace);
    Next(50, R50, R53, R52, R51, R54, 0x18, 0x8000, 0x20000, 0x658f, 0x17b5f, 0xbdafe58f, x, trace);
    Next(51, R51, R54, R53, R52, R55, 0x0, 0x200000, 0x800, 0x1756c7, 0x6ca, 0xd95756c7, x, trace);
  }

  lemma {:induction false} Abc52(x: seq<Word>, trace: seq<Registers>)
    requires AbcTrace(x, trace)
    ensures trace[56] == Values(R56, R59, R58, R57)
  {
    Abc48(x, trace);
    Next(52, R52, R55, R54, R53, R56, 0x0, 0x40, 0x4000000, 0x6, 0x1eb70e3, 0x7adc38c6, x, trace);
    Next(53, R53, R56, R55, R54, R57, 0x0, 0x400, 0x400000, 0x120, 0x15104e, 0x54413920, x, trace);
    Next(54, R54, R57, R56, R55, R58, 0x0, 0x8000, 0x20000, 0x1626, 0x44ab, 0x22559626, x, trace);
    Next(55, R55, R58, R57, R56, R59, 0x0, 0x200000, 0x800, 0x16fe57, 0x5f4, 0xbe96fe57, x, trace);
  }

  lemma {:induction false} Abc56(x: seq<Word>, trace: seq<Registers>)
    requires AbcTrace(x, trace)
    ensures trace[60] == Values(R60, R63, R62, R61)
  {
    Abc52(x, trace);
    Next(56, R56, R59, R58, R57, R60, 0x0, 0x40, 0x4000000, 0xe, 0x10e1e80, 0x4387a00e, x, trace);
    Next(57, R57, R60, R59, R58, R61, 0x0, 0x400, 0x400000, 0x76, 0x2270a2, 0x89c28876, x, trace);
    Next(58, R58, R61, R60, R59, R62, 0x0, 0x8000, 0x20000, 0x6994, 0x8cb2, 0x46596994, x, trace);
    Next(59, R59, R62, R61, R60, R63, 0x0, 0x200000, 0x800, 0xa17c5, 0x11c, 0x238a17c5, x, trace);
  }

  lemma {:induction false} Abc60(x: seq<Word>, trace: seq<Registers>)
    requires AbcTrace(x, trace)
    ensures trace[64] == Values(R64, R67, R66, R65)
  {
    Abc56(x, trace);
    Next(60, R60, R63, R62, R61, R64, 0x0, 0x40, 0x4000000, 0xb, 0x2f78c22, 0xbde3088b, x, trace);
    Next(61, R61, R64, R63, R62, R65, 0x0, 0x400, 0x400000, 0x223, 0xc50ab, 0x3142ae23, x, trace);
    Next(62, R62, R65, R64, R63, R66, 0x0, 0x8000, 0x20000, 0x2d26, 0x1046e, 0x82372d26, x, trace);
    Next(63, R63, R66, R65, R64, R67, 0x0, 0x200000, 0x800, 0x1d6cdb, 0x6df, 0xdbfd6cdb, x, trace);
  }

  // -------------------------------------------------------------------- digest

  lemma {:induction false} AbcLength()
    ensures LengthField(3) == [24, 0, 0, 0] + [0, 0, 0, 0]
  {
    assert Bytes(24) == [24, 0, 0, 0] && Bytes(0) == [0, 0, 0, 0];
  }

  /** Byte k of the padded message. */
  lemma {:induction false} AbcBlock(m: seq<Byte>, block: seq<Byte>)
    requires m == [0x61, 0x62, 0x63] && block == Padded(m)
    ensures |block| == 64 && block[0] == 0x61 && block[1] == 0x62 && block[2] == 0x63 && block[3] == 0x80
    ensures block[56] == 24 && forall k :: 4 <= k < 64 && k != 56 ==> block[k] == 0
  {
    AbcLength();
    var p, f := Padding(3), [24, 0, 0, 0] + [0, 0, 0, 0];
    assert |p| == 53 && block == m + p + f;
  }

  lemma {:induction false} AbcWords(block: seq<Byte>, x: seq<Word>)
    requires |block| == 64 && block[0] == 0x61 && block[1] == 0x62 && block[2] == 0x63 && block[3] == 0x80
    requires block[56] == 24 && forall k :: 4 <= k < 64 && k != 56 ==> block[k] == 0
    requires x == BlockWords(block)
    ensures x[0] == 0x80636261 && x[14] == 24 && forall i :: 0 < i < 16 && i != 14 ==> x[i] == 0
  {
    forall i | 0 <= i < 16
      ensures x[i] == if i == 0 then 0x80636261 else if i == 14 then 24 else 0
    {
      var b := block[4 * i..4 * i + 4];
      assert b[0] == block[4 * i] && b[1] == block[4 * i + 1] && b[2] == block[4 * i + 2] && b[3] == block[4 * i + 3];
    }
  }

  lemma {:induction false} InitialValues()
    ensures INITIAL == Values(R0, R3, R2, R1)
  {
  }

  /** The registers after the block of "abc". */
  lemma {:induction false} AbcCompressed(block: seq<Byte>)
    requires |block| == 64 && block[0] == 0x61 && block[1] == 0x62 && block[2] == 0x63 && block[3] == 0x80
    requires block[56] == 24 && forall k :: 4 <= k < 64 && k != 56 ==> block[k] == 0
    ensures Compress(INITIAL, block) == Registers(0x98500190, 0xb04fd23c, 0x7d3f96d6, 0x727fe128)
  {
    var x := BlockWords(block);
    AbcWords(block, x);
    var trace := seq(65, i requires 0 <= i < 65 => Operations(i, INITIAL, x));
    forall i | 0 <= i < 64
      ensures Follows(trace, x, i)
    {
      OneMore(i, INITIAL, x);
    }
    InitialValues();
    Abc60(x, trace);
    assert trace[64] == Operations(64, INITIAL, x);
  }

  lemma {:induction false} OneBlockDigest(step: (Registers, seq<Byte>) -> Registers, m: seq<Byte>, r: Registers)
    requires |Padded(m)| == 64 && step(INITIAL, Padded(m)) == r
    ensures DigestWith(step, m) == Output(r)
  {
    FoldBlock(step, INITIAL, Padded(m));
  }

  const ABC_DIGEST: seq<Byte> :=
    [0x90, 0x01, 0x50, 0x98, 0x3c, 0xd2, 0x4f, 0xb0, 0xd6, 0x96, 0x3f, 0x7d, 0x28, 0xe1, 0x7f, 0x72]

  lemma {:induction false} AbcOutput(r: Registers)
    requires r == Registers(0x98500190, 0xb04fd23c, 0x7d3f96d6, 0x727fe128)
    ensures Output(r) == ABC_DIGEST
  {
    assert Bytes(r.a) == [0x90, 0x01, 0x50, 0x98] && Bytes(r.b) == [0x3c, 0xd2, 0x4f, 0xb0];
    assert Bytes(r.c) == [0xd6, 0x96, 0x3f, 0x7d] && Bytes(r.d) == [0x28, 0xe1, 0x7f, 0x72];
  }

  /** MD5 ("abc") = 900150983cd24fb0d6963f7d28e17f72. */
  lemma {:induction false} DigestOfAbc(m: seq<Byte>)
    requires m == [0x61, 0x62, 0x63]
    ensures Digest(m) == ABC_DIGEST
  {
    var r := Registers(0x98500190, 0xb04fd23c, 0x7d3f96d6, 0x727fe128);
    AbcBlock(m, Padded(m));
    AbcCompressed(Padded(m));
    OneBlockDigest(Compress, m, r);
    AbcOutput(r);
  }
}
