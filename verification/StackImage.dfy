/**
 The initial user stack: what create_args_env_aux lays out below the stack top
 (argc, argv pointers, envp pointers, auxiliary vector, strings) and what
 parse_stack reads back, byte by byte.
 */
module StackImage {
  import opened Options

  type Byte = x: nat | x < 256

  datatype Aux = Aux(kind: nat, value: nat)

  // ------------------------------------------------------ little-endian words

  function Encode(w: nat, n: nat): (b: seq<Byte>)
    ensures |b| == n
  {
    if n == 0 then [] else [w % 256] + Encode(w / 256, n - 1)
  }

  function Decode(b: seq<Byte>): nat {
    if b == [] then 0 else b[0] + 256 * Decode(b[1..])
  }

  function Pow256(n: nat): nat {
    if n == 0 then 1 else 256 * Pow256(n - 1)
  }

  lemma {:induction false} DecodeEncode(w: nat, n: nat)
    requires w < Pow256(n)
    ensures Decode(Encode(w, n)) == w
    decreases n
  {
    if n > 0 {
      DecodeEncode(w / 256, n - 1);
      assert Encode(w, n)[1..] == Encode(w / 256, n - 1);
    }
  }

  predicate IsWord(w: nat) {
    w < 0x1_0000_0000_0000_0000
  }

  lemma {:induction false} WordRoundTrip(w: nat)
    requires IsWord(w)
    ensures Decode(Encode(w, 8)) == w
  {
    assert Pow256(8) == 0x1_0000_0000_0000_0000;
    DecodeEncode(w, 8);
  }

  /** Byte k of a word has weight 256^k. */
  lemma {:induction false} WordWeights(b: seq<Byte>)
    requires |b| == 8
    ensures Decode(b) == b[0] as nat + 0x100 * b[1] as nat + 0x1_0000 * b[2] as nat + 0x100_0000 * b[3] as nat
                         + 0x1_0000_0000 * b[4] as nat + 0x100_0000_0000 * b[5] as nat
                         + 0x1_0000_0000_0000 * b[6] as nat + 0x100_0000_0000_0000 * b[7] as nat
  {
    HalfWeights(b);
    HalfWeights(b[4..]);
    assert b[4..][4..] == [];
  }

  lemma {:induction false} HalfWeights(b: seq<Byte>)
    requires |b| >= 4
    ensures Decode(b) == b[0] as nat + 0x100 * b[1] as nat + 0x1_0000 * b[2] as nat + 0x100_0000 * b[3] as nat
                         + 0x1_0000_0000 * Decode(b[4..])
  {
    assert b[1..][1..] == b[2..] && b[2..][1..] == b[3..] && b[3..][1..] == b[4..];
    assert Decode(b[1..]) == b[1] as nat + 256 * Decode(b[2..]);
    assert Decode(b[2..]) == b[2] as nat + 256 * Decode(b[3..]);
    assert Decode(b[3..]) == b[3] as nat + 256 * Decode(b[4..]);
  }

  // ------------------------------------------------------------------- memory

  /** A mapped address range and its contents. */
  datatype Memory = Memory(base: nat, bytes: seq<Byte>)

  function ReadWord(m: Memory, addr: nat): Option<nat> {
    if m.base <= addr && addr + 8 <= m.base + |m.bytes| then
      Some(Decode(m.bytes[addr - m.base..addr - m.base + 8]))
    else None
  }

  /** Two memories that agree everywhere outside [lo, hi). */
  ghost predicate Changed(m: Memory, n: Memory, lo: nat, hi: nat) {
    && n.base == m.base && |n.bytes| == |m.bytes|
    && forall k :: 0 <= k < |n.bytes| && !(lo <= m.base + k < hi) ==> n.bytes[k] == m.bytes[k]
  }

  /** Two memories that agree on [lo, hi). */
  ghost predicate Same(m: Memory, n: Memory, lo: nat, hi: nat) {
    && n.base == m.base && |n.bytes| == |m.bytes|
    && forall k :: 0 <= k < |n.bytes| && lo <= m.base + k < hi ==> n.bytes[k] == m.bytes[k]
  }

  /** n holds at `to` what m holds in its first `size` bytes. */
  ghost predicate Copied(m: Memory, n: Memory, to: nat, size: nat) {
    && m.base == 0 && size <= |m.bytes| && n.base <= to && to + size <= n.base + |n.bytes|
    && n.bytes[to - n.base..to - n.base + size] == m.bytes[0..size]
  }

  lemma {:induction false} WordKept(m: Memory, n: Memory, lo: nat, hi: nat, addr: nat)
    requires Same(m, n, lo, hi) && lo <= addr && addr + 8 <= hi
    ensures ReadWord(n, addr) == ReadWord(m, addr)
  {
    if m.base <= addr && addr + 8 <= m.base + |m.bytes| {
      var o := addr - m.base;
      assert n.bytes[o..o + 8] == m.bytes[o..o + 8];
    }
  }

  lemma {:induction false} SubSlice(b: seq<Byte>, lo: nat, hi: nat, i: nat, j: nat)
    requires lo <= hi <= |b| && i <= j <= hi - lo
    ensures b[lo..hi][i..j] == b[lo + i..lo + j]
  {
    var x, y := b[lo..hi][i..j], b[lo + i..lo + j];
    assert |x| == |y| && forall k :: 0 <= k < |x| ==> x[k] == y[k];
  }

  lemma {:induction false} WordCopied(m: Memory, n: Memory, to: nat, size: nat, addr: nat)
    requires Copied(m, n, to, size) && addr + 8 <= size
    ensures ReadWord(n, to + addr) == ReadWord(m, addr)
  {
    var o := to - n.base;
    SubSlice(n.bytes, o, o + size, addr, addr + 8);
    SubSlice(m.bytes, 0, size, addr, addr + 8);
  }

  // -------------------------------------------------------------- word tables

  ghost predicate WordAt(m: Memory, at: nat, ws: seq<nat>, i: nat)
    requires i < |ws|
  {
    ReadWord(m, at + 8 * i) == Some(ws[i])
  }

  /** The words ws lie in memory one after the other from `at`. */
  ghost predicate WordsAt(m: Memory, at: nat, ws: seq<nat>) {
    forall i {:trigger WordAt(m, at, ws, i)} :: 0 <= i < |ws| ==> WordAt(m, at, ws, i)
  }

  lemma {:induction false} WordsKept(m: Memory, n: Memory, lo: nat, hi: nat, at: nat, ws: seq<nat>)
    requires WordsAt(m, at, ws) && Same(m, n, lo, hi) && lo <= at && at + 8 * |ws| <= hi
    ensures WordsAt(n, at, ws)
  {
    forall i | 0 <= i < |ws|
      ensures WordAt(n, at, ws, i)
    {
      assert WordAt(m, at, ws, i);
      WordKept(m, n, lo, hi, at + 8 * i);
    }
  }

  lemma {:induction false} WordsCopied(m: Memory, n: Memory, to: nat, size: nat, ws: seq<nat>)
    requires WordsAt(m, 0, ws) && Copied(m, n, to, size) && 8 * |ws| <= size
    ensures WordsAt(n, to, ws)
  {
    forall i | 0 <= i < |ws|
      ensures WordAt(n, to, ws, i)
    {
      assert WordAt(m, 0, ws, i);
      WordCopied(m, n, to, size, 8 * i);
    }
  }

  /** One word of a table overwritten. */
  lemma {:induction false} WordsPatched(m: Memory, n: Memory, at: nat, ws: seq<nat>, j: nat, w: nat)
    requires WordsAt(m, at, ws) && j < |ws| && Changed(m, n, at + 8 * j, at + 8 * j + 8)
      && ReadWord(n, at + 8 * j) == Some(w)
    ensures WordsAt(n, at, ws[j := w])
  {
    var now: seq<nat> := ws[j := w];
    forall i | 0 <= i < |now|
      ensures WordAt(n, at, now, i)
    {
      if i != j {
        assert WordAt(m, at, ws, i);
        WordKept(m, n, at + 8 * i, at + 8 * i + 8, at + 8 * i);
      }
    }
  }

  lemma {:induction false} WordsAtSlice(m: Memory, at: nat, ws: seq<nat>, i: nat, j: nat, part: seq<nat>)
    requires WordsAt(m, at, ws) && i <= j <= |ws| && ws[i..j] == part
    ensures WordsAt(m, at + 8 * i, part)
  {
    var from := at + 8 * i;
    forall k | 0 <= k < |part|
      ensures WordAt(m, from, part, k)
    {
      assert WordAt(m, at, ws, i + k);
      assert at + 8 * (i + k) == at + 8 * i + 8 * k;
    }
  }

  // ------------------------------------------------------------------ strings

  predicate IsString(s: seq<Byte>) {
    0 !in s
  }

  ghost predicate AreStrings(ss: seq<seq<Byte>>) {
    forall i :: 0 <= i < |ss| ==> IsString(ss[i])
  }

  /** The bytes the first n strings take, each with its terminator. */
  function Length(ss: seq<seq<Byte>>, n: nat): nat
    requires n <= |ss|
  {
    if n == 0 then 0 else Length(ss, n - 1) + |ss[n - 1]| + 1
  }

  lemma {:induction false} LengthGrows(ss: seq<seq<Byte>>, i: nat, n: nat)
    requires i < n <= |ss|
    ensures Length(ss, i) + |ss[i]| + 1 <= Length(ss, n)
    decreases n
  {
    if i < n - 1 { LengthGrows(ss, i, n - 1); }
  }

  /** The offsets at which the strings of ss start when laid out from `start`. */
  function Offsets(ss: seq<seq<Byte>>, start: nat): (o: seq<nat>)
    ensures |o| == |ss|
  {
    seq(|ss|, i requires 0 <= i < |ss| => start + Length(ss, i))
  }

  /** The string s and its terminator lie at addr. */
  ghost predicate StringHere(m: Memory, addr: nat, s: seq<Byte>) {
    && m.base <= addr && addr + |s| + 1 <= m.base + |m.bytes|
    && m.bytes[addr - m.base..addr - m.base + |s|] == s && m.bytes[addr - m.base + |s|] == 0
  }

  ghost predicate StringAt(m: Memory, ss: seq<seq<Byte>>, start: nat, i: nat)
    requires i < |ss|
  {
    StringHere(m, start + Length(ss, i), ss[i])
  }

  /** The first n strings lie one after the other from `start`. */
  ghost predicate StringsAt(m: Memory, ss: seq<seq<Byte>>, start: nat, n: nat)
    requires n <= |ss|
  {
    forall i {:trigger StringAt(m, ss, start, i)} :: 0 <= i < n ==> StringAt(m, ss, start, i)
  }

  lemma {:induction false} StringKept(m: Memory, n: Memory, lo: nat, hi: nat, addr: nat, s: seq<Byte>)
    requires StringHere(m, addr, s) && Same(m, n, lo, hi) && lo <= addr && addr + |s| + 1 <= hi
    ensures StringHere(n, addr, s)
  {
    var o := addr - m.base;
    assert n.bytes[o..o + |s|] == m.bytes[o..o + |s|];
  }

  lemma {:induction false} StringCopied(m: Memory, n: Memory, to: nat, size: nat, addr: nat, s: seq<Byte>)
    requires StringHere(m, addr, s) && Copied(m, n, to, size) && addr + |s| + 1 <= size
    ensures StringHere(n, to + addr, s)
  {
    var o := to - n.base;
    SubSlice(n.bytes, o, o + size, addr, addr + |s|);
    SubSlice(m.bytes, 0, size, addr, addr + |s|);
    assert n.bytes[o + addr + |s|] == n.bytes[o..o + size][addr + |s|] == m.bytes[0..size][addr + |s|];
  }

  lemma {:induction false} StringsKept(m: Memory, n: Memory, lo: nat, hi: nat, ss: seq<seq<Byte>>, start: nat, c: nat)
    requires c <= |ss| && StringsAt(m, ss, start, c) && Same(m, n, lo, hi)
    requires lo <= start && start + Length(ss, c) <= hi
    ensures StringsAt(n, ss, start, c)
  {
    forall i | 0 <= i < c
      ensures StringAt(n, ss, start, i)
    {
      assert StringAt(m, ss, start, i);
      LengthGrows(ss, i, c);
      StringKept(m, n, lo, hi, start + Length(ss, i), ss[i]);
    }
  }

  lemma {:induction false} StringsCopied(m: Memory, n: Memory, to: nat, size: nat, ss: seq<seq<Byte>>, start: nat)
    requires StringsAt(m, ss, start, |ss|) && Copied(m, n, to, size) && start + Length(ss, |ss|) <= size
    ensures StringsAt(n, ss, to + start, |ss|)
  {
    var at := to + start;
    forall i | 0 <= i < |ss|
      ensures StringAt(n, ss, at, i)
    {
      assert StringAt(m, ss, start, i);
      LengthGrows(ss, i, |ss|);
      StringCopied(m, n, to, size, start + Length(ss, i), ss[i]);
      assert to + (start + Length(ss, i)) == at + Length(ss, i);
    }
  }

  // -------------------------------------------------------------------- image

  function AuxWords(aux: seq<Aux>): (w: seq<nat>)
    ensures |w| == 2 * |aux|
  {
    if aux == [] then [] else AuxWords(aux[..|aux| - 1]) + [aux[|aux| - 1].kind, aux[|aux| - 1].value]
  }

  /** The word table: argc, argv pointers, NULL, envp pointers, NULL, auxiliary vector, AT_NULL pair. */
  function Table(argvPtrs: seq<nat>, envpPtrs: seq<nat>, aux: seq<Aux>): seq<nat> {
    [|argvPtrs|] + argvPtrs + [0] + envpPtrs + [0] + AuxWords(aux) + [0, 0]
  }

  function TableSize(argc: nat, envc: nat, auxc: nat): nat {
    8 * (argc + envc + 2 * auxc + 5)
  }

  function PadTo16(x: nat): (p: nat)
    ensures p < 16 && (x + p) % 16 == 0
  {
    (16 - x % 16) % 16
  }

  /** Where the strings start, relative to the image, for a scratch buffer at address `scratch`. */
  function StringStart(argv: seq<seq<Byte>>, envp: seq<seq<Byte>>, aux: seq<Aux>, scratch: nat): nat {
    var table := TableSize(|argv|, |envp|, |aux|);
    table + PadTo16(scratch + table + Length(argv, |argv|) + Length(envp, |envp|)) + 8
  }

  function ImageSize(argv: seq<seq<Byte>>, envp: seq<seq<Byte>>, aux: seq<Aux>, scratch: nat): nat {
    StringStart(argv, envp, aux, scratch) + Length(argv, |argv|) + Length(envp, |envp|)
  }

  /** The offsets as addresses: what the final loops make of them. */
  function Shifted(o: seq<nat>, delta: nat): (r: seq<nat>)
    ensures |r| == |o|
  {
    seq(|o|, i requires 0 <= i < |o| => o[i] + delta)
  }

  /** The parts of an image at p: the table, whose pointers are relative to `delta`, and after a gap the strings. */
  ghost predicate Layout(m: Memory, p: nat, delta: nat, start: nat, mid: nat, argv: seq<seq<Byte>>,
                         envp: seq<seq<Byte>>, aux: seq<Aux>) {
    && WordsAt(m, p, Table(Shifted(Offsets(argv, start), delta), Shifted(Offsets(envp, mid), delta), aux))
    && StringsAt(m, argv, p + start, |argv|)
    && StringsAt(m, envp, p + mid, |envp|)
  }

  /** The psABI alignment: with an aligned scratch buffer and a top congruent to 8, the image starts 16-byte aligned. */
  lemma {:induction false} ImageAligned(scratch: nat, table: nat, args: nat, envs: nat, stack: nat)
    requires scratch % 16 == 0 && stack % 16 == 8
    ensures (stack - (table + PadTo16(scratch + table + args + envs) + 8 + args + envs)) % 16 == 0
  {
    var x := scratch + table + args + envs;
    var q, a, b := (x + PadTo16(x)) / 16, scratch / 16, stack / 16;
    assert stack - (table + PadTo16(x) + 8 + args + envs) == 16 * (b + a - q);
  }

  /** _stkalloc: the top of a stack of whole pages, 16-byte aligned down and lowered by 8. */
  function StackTop(base: nat, pages: nat): (top: int)
    ensures top % 16 == 8
    ensures base + pages * 0x1000 - 40 < top <= base + pages * 0x1000 - 24
  {
    var t := base + pages * 0x1000 - 0x10;
    (t - t % 16) - 8
  }

  // ------------------------------------------------------------------ decoding

  /** The C string at an address; None when it runs off the memory. */
  function ReadString(m: Memory, addr: nat): Option<seq<Byte>>
    decreases m.base + |m.bytes| - addr
  {
    if !(m.base <= addr < m.base + |m.bytes|) then None
    else if m.bytes[addr - m.base] == 0 then Some([])
    else match ReadString(m, addr + 1)
      case None => None
      case Some(s) => Some([m.bytes[addr - m.base]] + s)
  }

  /** n argument pointers; a NULL pointer is reported as None. */
  function ReadArgs(m: Memory, at: nat, n: nat): Option<seq<Option<seq<Byte>>>> {
    if n == 0 then Some([]) else
    var args, w := ReadArgs(m, at, n - 1), ReadWord(m, at + 8 * (n - 1));
    if args.None? || w.None? then None
    else if w.value == 0 then Some(args.value + [None])
    else
      var s := ReadString(m, w.value);
      if s.None? then None else Some(args.value + [s])
  }

  /** Environment pointers up to the NULL. */
  function ReadEnv(m: Memory, at: nat): Option<seq<seq<Byte>>>
    decreases m.base + |m.bytes| - at
  {
    var w := ReadWord(m, at);
    if w.None? then None
    else if w.value == 0 then Some([])
    else
      var s, rest := ReadString(m, w.value), ReadEnv(m, at + 8);
      if s.None? || rest.None? then None else Some([s.value] + rest.value)
  }

  /** Auxiliary entries up to AT_NULL. */
  function ReadAux(m: Memory, at: nat): Option<seq<Aux>>
    decreases m.base + |m.bytes| - at
  {
    var kind := ReadWord(m, at);
    if kind.None? then None
    else if kind.value == 0 then Some([])
    else
      var value, rest := ReadWord(m, at + 8), ReadAux(m, at + 16);
      if value.None? || rest.None? then None else Some([Aux(kind.value, value.value)] + rest.value)
  }

  datatype Parsed = Parsed(argc: nat, argv: seq<Option<seq<Byte>>>, envp: seq<seq<Byte>>, aux: seq<Aux>)

  /** Everything parse_stack reads from the stack pointer on. */
  function Parse(m: Memory, p: nat): Option<Parsed> {
    var argc := ReadWord(m, p);
    if argc.None? then None else
    var argv := ReadArgs(m, p + 8, argc.value);
    if argv.None? then None else ParseEnvp(m, p + 8 + 8 * (argc.value + 1), argc.value, argv.value)
  }

  function ParseEnvp(m: Memory, at: nat, argc: nat, argv: seq<Option<seq<Byte>>>): Option<Parsed> {
    var envp := ReadEnv(m, at);
    if envp.None? then None else ParseAuxv(m, at + 8 * (|envp.value| + 1), argc, argv, envp.value)
  }

  function ParseAuxv(m: Memory, at: nat, argc: nat, argv: seq<Option<seq<Byte>>>,
                     envp: seq<seq<Byte>>): Option<Parsed> {
    var aux := ReadAux(m, at);
    if aux.None? then None else Some(Parsed(argc, argv, envp, aux.value))
  }

  // ------------------------------------------------------- what was read where

  /** A string read lies in memory up to its terminator. */
  lemma {:induction false} StringRead(m: Memory, addr: nat, s: seq<Byte>)
    requires ReadString(m, addr) == Some(s)
    ensures m.base <= addr && addr + |s| < m.base + |m.bytes| && m.bytes[addr - m.base + |s|] == 0
    ensures forall k :: 0 <= k < |s| ==> s[k] == m.bytes[addr - m.base + k] != 0
    decreases |s|
  {
    if s != [] {
      StringRead(m, addr + 1, s[1..]);
      assert forall k :: 1 <= k < |s| ==> s[k] == s[1..][k - 1];
    }
  }

  lemma {:induction false} ArgRead(m: Memory, at: nat, n: nat, i: nat)
    requires ReadArgs(m, at, n).Some? && i < n
    ensures |ReadArgs(m, at, n).value| == n && ReadWord(m, at + 8 * i).Some?
    ensures var w := ReadWord(m, at + 8 * i).value;
            ReadArgs(m, at, n).value[i] == if w == 0 then None else ReadString(m, w)
  {
    if n > 1 { ArgRead(m, at, n - 1, if i < n - 1 then i else 0); }
  }

  lemma {:induction false} EnvRead(m: Memory, at: nat, env: seq<seq<Byte>>, i: nat)
    requires ReadEnv(m, at) == Some(env) && i <= |env|
    ensures ReadWord(m, at + 8 * i).Some?
    ensures var w := ReadWord(m, at + 8 * i).value;
            (w == 0 <==> i == |env|) && (i < |env| ==> ReadString(m, w) == Some(env[i]))
    decreases i
  {
    if i > 0 {
      EnvRead(m, at + 8, env[1..], i - 1);
      assert at + 8 + 8 * (i - 1) == at + 8 * i;
    }
  }

  lemma {:induction false} AuxRead(m: Memory, at: nat, aux: seq<Aux>, i: nat)
    requires ReadAux(m, at) == Some(aux) && i <= |aux|
    ensures ReadWord(m, at + 16 * i) == Some(if i < |aux| then aux[i].kind else 0)
    ensures i < |aux| ==> aux[i].kind != 0 && ReadWord(m, at + 16 * i + 8) == Some(aux[i].value)
    decreases i
  {
    if i > 0 {
      AuxRead(m, at + 16, aux[1..], i - 1);
      assert at + 16 + 16 * (i - 1) == at + 16 * i;
    }
  }

  lemma {:induction false} ArgPart(m: Memory, p: nat, r: Parsed)
    requires Parse(m, p) == Some(r)
    ensures ReadWord(m, p) == Some(r.argc) && ReadArgs(m, p + 8, r.argc) == Some(r.argv)
    ensures ParseEnvp(m, p + 8 * r.argc + 16, r.argc, r.argv) == Some(r)
  {
    assert p + 8 + 8 * (r.argc + 1) == p + 8 * r.argc + 16;
  }

  lemma {:induction false} EnvPart(m: Memory, at: nat, r: Parsed)
    requires ParseEnvp(m, at, r.argc, r.argv) == Some(r)
    ensures ReadEnv(m, at) == Some(r.envp)
  {
  }

  lemma {:induction false} AuxPart(m: Memory, env: nat, r: Parsed, at: nat)
    requires ParseEnvp(m, env, r.argc, r.argv) == Some(r) && at == env + 8 * |r.envp| + 8
    ensures ReadAux(m, at) == Some(r.aux)
  {
    assert env + 8 * (|r.envp| + 1) == at;
  }

  lemma {:induction false} ArgCount(m: Memory, at: nat, n: nat)
    requires ReadArgs(m, at, n).Some?
    ensures |ReadArgs(m, at, n).value| == n
  {
    if n > 0 { ArgCount(m, at, n - 1); }
  }

  lemma {:induction false} EnvFrom(m: Memory, at: nat, r: Parsed, i: nat)
    requires ParseEnvp(m, at, r.argc, r.argv) == Some(r) && i <= |r.envp|
    ensures var w := ReadWord(m, at + 8 * i);
            && w.Some? && (w.value == 0 <==> i == |r.envp|)
            && (i < |r.envp| ==> ReadString(m, w.value) == Some(r.envp[i]))
  {
    EnvPart(m, at, r);
    EnvRead(m, at, r.envp, i);
  }

  // Where parse_stack finds what: the order of section 3.4.1 of the System V AMD64 psABI.

  /** argc at the stack pointer, then the argument pointers, */
  lemma {:induction false} ArgAddresses(m: Memory, p: nat, r: Parsed, i: nat)
    requires Parse(m, p) == Some(r)
    ensures ReadWord(m, p) == Some(r.argc) && |r.argv| == r.argc
    ensures i < r.argc ==>
      var w := ReadWord(m, p + 8 + 8 * i);
      w.Some? && r.argv[i] == if w.value == 0 then None else ReadString(m, w.value)
  {
    ArgPart(m, p, r);
    ArgCount(m, p + 8, r.argc);
    if i < r.argc { ArgRead(m, p + 8, r.argc, i); }
  }

  /** one word further the environment pointers and a NULL, */
  lemma {:induction false} EnvAddresses(m: Memory, p: nat, r: Parsed, i: nat)
    requires Parse(m, p) == Some(r) && i <= |r.envp|
    ensures var w := ReadWord(m, p + 8 * r.argc + 16 + 8 * i);
            && w.Some? && (w.value == 0 <==> i == |r.envp|)
            && (i < |r.envp| ==> ReadString(m, w.value) == Some(r.envp[i]))
  {
    ArgPart(m, p, r);
    EnvFrom(m, p + 8 * r.argc + 16, r, i);
  }

  /** and the auxiliary pairs up to AT_NULL. */
  lemma {:induction false} AuxAddresses(m: Memory, p: nat, r: Parsed, i: nat)
    requires Parse(m, p) == Some(r) && i <= |r.aux|
    ensures var at := p + 8 * r.argc + 8 * |r.envp| + 24 + 16 * i;
            && ReadWord(m, at) == Some(if i < |r.aux| then r.aux[i].kind else 0)
            && (i < |r.aux| ==> ReadWord(m, at + 8) == Some(r.aux[i].value))
  {
    ArgPart(m, p, r);
    AuxPart(m, p + 8 * r.argc + 16, r, p + 8 * r.argc + 8 * |r.envp| + 24);
    AuxRead(m, p + 8 * r.argc + 8 * |r.envp| + 24, r.aux, i);
  }

  // ---------------------------------------------------------------- round trip

  lemma {:induction false} ReadStringAt(m: Memory, addr: nat, s: seq<Byte>)
    requires IsString(s) && StringHere(m, addr, s)
    ensures ReadString(m, addr) == Some(s)
    decreases |s|
  {
    if s != [] {
      var o := addr - m.base;
      assert m.bytes[o] == m.bytes[o..o + |s|][0] == s[0];
      assert m.bytes[o + 1..o + |s|] == m.bytes[o..o + |s|][1..] == s[1..];
      ReadStringAt(m, addr + 1, s[1..]);
      assert s == [s[0]] + s[1..];
    }
  }

  /** ptrs are the addresses of the strings of ss. */
  ghost predicate Points(m: Memory, ptrs: seq<nat>, ss: seq<seq<Byte>>) {
    |ptrs| == |ss| && forall i :: 0 <= i < |ss| ==> ptrs[i] > 0 && ReadString(m, ptrs[i]) == Some(ss[i])
  }

  lemma {:induction false} StringsAreRead(m: Memory, p: nat, start: nat, ss: seq<seq<Byte>>)
    requires AreStrings(ss) && start > 0 && StringsAt(m, ss, p + start, |ss|)
    ensures Points(m, Shifted(Offsets(ss, start), p), ss)
  {
    var at := p + start;
    forall i | 0 <= i < |ss|
      ensures Shifted(Offsets(ss, start), p)[i] > 0 && ReadString(m, Shifted(Offsets(ss, start), p)[i]) == Some(ss[i])
    {
      assert StringAt(m, ss, at, i);
      ReadStringAt(m, at + Length(ss, i), ss[i]);
      assert Shifted(Offsets(ss, start), p)[i] == at + Length(ss, i);
    }
  }

  function Present(ss: seq<seq<Byte>>): seq<Option<seq<Byte>>> {
    if ss == [] then [] else Present(ss[..|ss| - 1]) + [Some(ss[|ss| - 1])]
  }

  lemma {:induction false} PresentAll(ss: seq<seq<Byte>>)
    ensures |Present(ss)| == |ss| && forall i :: 0 <= i < |ss| ==> Present(ss)[i] == Some(ss[i])
    decreases |ss|
  {
    if ss != [] { PresentAll(ss[..|ss| - 1]); }
  }

  lemma {:induction false} ReadArgsAt(m: Memory, at: nat, ptrs: seq<nat>, ss: seq<seq<Byte>>, n: nat)
    requires Points(m, ptrs, ss) && n <= |ss|
    requires WordsAt(m, at, ptrs)
    ensures ReadArgs(m, at, n) == Some(Present(ss[..n]))
  {
    if n > 0 {
      ReadArgsAt(m, at, ptrs, ss, n - 1);
      assert WordAt(m, at, ptrs, n - 1);
      assert ss[..n][..n - 1] == ss[..n - 1];
    }
  }

  lemma {:induction false} ReadEnvAt(m: Memory, at: nat, ptrs: seq<nat>, ss: seq<seq<Byte>>, i: nat)
    requires Points(m, ptrs, ss) && i <= |ss| && WordsAt(m, at, ptrs + [0])
    ensures ReadEnv(m, at + 8 * i) == Some(ss[i..])
    decreases |ss| - i
  {
    assert WordAt(m, at, ptrs + [0], i);
    if i < |ss| {
      ReadEnvAt(m, at, ptrs, ss, i + 1);
      assert at + 8 * i + 8 == at + 8 * (i + 1);
      assert ss[i..] == [ss[i]] + ss[i + 1..];
    } else {
      assert ss[i..] == [];
    }
  }

  lemma {:induction false} ReadAuxAt(m: Memory, at: nat, aux: seq<Aux>, i: nat)
    requires i <= |aux| && (forall k :: 0 <= k < |aux| ==> aux[k].kind != 0)
    requires WordsAt(m, at, AuxWords(aux) + [0, 0])
    ensures ReadAux(m, at + 16 * i) == Some(aux[i..])
    decreases |aux| - i
  {
    var ws := AuxWords(aux) + [0, 0];
    assert WordAt(m, at, ws, 2 * i) && at + 8 * (2 * i) == at + 16 * i;
    if i < |aux| {
      AuxWordsAt(aux, i);
      assert WordAt(m, at, ws, 2 * i + 1) && at + 8 * (2 * i + 1) == at + 16 * i + 8;
      ReadAuxAt(m, at, aux, i + 1);
      assert at + 16 * i + 16 == at + 16 * (i + 1);
      assert aux[i..] == [aux[i]] + aux[i + 1..];
    } else {
      assert aux[i..] == [];
    }
  }

  lemma {:induction false} AuxWordsAt(aux: seq<Aux>, i: nat)
    requires i < |aux|
    ensures AuxWords(aux)[2 * i] == aux[i].kind && AuxWords(aux)[2 * i + 1] == aux[i].value
  {
    if i < |aux| - 1 { AuxWordsAt(aux[..|aux| - 1], i); }
  }

  ghost predicate GoodInput(argv: seq<seq<Byte>>, envp: seq<seq<Byte>>, aux: seq<Aux>) {
    && AreStrings(argv) && AreStrings(envp)
    && forall i :: 0 <= i < |aux| ==> aux[i].kind != 0 && IsWord(aux[i].kind) && IsWord(aux[i].value)
  }

  /** The four parts of the table. */
  lemma {:induction false} TableParts(A: seq<nat>, E: seq<nat>, aux: seq<Aux>)
    ensures var ws, a, e := Table(A, E, aux), |A|, |E|;
            |ws| == a + e + 2 * |aux| + 5 && ws[0] == a && ws[1..1 + a] == A
            && ws[2 + a..3 + a + e] == E + [0] && ws[3 + a + e..|ws|] == AuxWords(aux) + [0, 0]
  {
  }

  lemma {:induction false} ParseArgs(m: Memory, p: nat, A: seq<nat>, E: seq<nat>, aux: seq<Aux>, argv: seq<seq<Byte>>)
    requires WordsAt(m, p, Table(A, E, aux)) && Points(m, A, argv)
    ensures ReadWord(m, p) == Some(|A|) && ReadArgs(m, p + 8, |A|) == Some(Present(argv))
  {
    var ws := Table(A, E, aux);
    TableParts(A, E, aux);
    assert WordAt(m, p, ws, 0);
    WordsAtSlice(m, p, ws, 1, 1 + |A|, A);
    ReadArgsAt(m, p + 8, A, argv, |A|);
    assert argv[..|A|] == argv;
  }

  lemma {:induction false} ParseEnv(m: Memory, p: nat, A: seq<nat>, E: seq<nat>, aux: seq<Aux>, envp: seq<seq<Byte>>,
                                    at: nat)
    requires WordsAt(m, p, Table(A, E, aux)) && Points(m, E, envp) && at == p + 8 + 8 * (|A| + 1)
    ensures ReadEnv(m, at) == Some(envp)
  {
    TableParts(A, E, aux);
    WordsAtSlice(m, p, Table(A, E, aux), 2 + |A|, 3 + |A| + |E|, E + [0]);
    ReadEnvAt(m, at, E, envp, 0);
    assert envp[0..] == envp;
  }

  lemma {:induction false} ParseAux(m: Memory, p: nat, A: seq<nat>, E: seq<nat>, aux: seq<Aux>, at: nat)
    requires WordsAt(m, p, Table(A, E, aux)) && forall k :: 0 <= k < |aux| ==> aux[k].kind != 0
    requires at == p + 8 + 8 * (|A| + 1) + 8 * (|E| + 1)
    ensures ReadAux(m, at) == Some(aux)
  {
    var ws := Table(A, E, aux);
    TableParts(A, E, aux);
    WordsAtSlice(m, p, ws, 3 + |A| + |E|, |ws|, AuxWords(aux) + [0, 0]);
    ReadAuxAt(m, at, aux, 0);
    assert aux[0..] == aux;
  }

  lemma {:induction false} ParseTable(m: Memory, p: nat, A: seq<nat>, E: seq<nat>,
                                      argv: seq<seq<Byte>>, envp: seq<seq<Byte>>, aux: seq<Aux>)
    requires WordsAt(m, p, Table(A, E, aux)) && Points(m, A, argv) && Points(m, E, envp)
    requires forall k :: 0 <= k < |aux| ==> aux[k].kind != 0
    ensures Parse(m, p) == Some(Parsed(|argv|, Present(argv), envp, aux))
  {
    var env := p + 8 + 8 * (|A| + 1);
    ParseArgs(m, p, A, E, aux, argv);
    EnvpParsed(m, p, env, A, E, envp, aux, Present(argv));
  }

  lemma {:induction false} EnvpParsed(m: Memory, p: nat, at: nat, A: seq<nat>, E: seq<nat>, envp: seq<seq<Byte>>,
                                      aux: seq<Aux>, argv: seq<Option<seq<Byte>>>)
    requires WordsAt(m, p, Table(A, E, aux)) && Points(m, E, envp) && at == p + 8 + 8 * (|A| + 1)
    requires forall k :: 0 <= k < |aux| ==> aux[k].kind != 0
    ensures ParseEnvp(m, at, |A|, argv) == Some(Parsed(|A|, argv, envp, aux))
  {
    ParseEnv(m, p, A, E, aux, envp, at);
    AuxvParsed(m, p, at + 8 * (|envp| + 1), A, E, aux, argv, envp);
  }

  lemma {:induction false} AuxvParsed(m: Memory, p: nat, at: nat, A: seq<nat>, E: seq<nat>, aux: seq<Aux>,
                                      argv: seq<Option<seq<Byte>>>, envp: seq<seq<Byte>>)
    requires WordsAt(m, p, Table(A, E, aux)) && at == p + 8 + 8 * (|A| + 1) + 8 * (|E| + 1)
    requires forall k :: 0 <= k < |aux| ==> aux[k].kind != 0
    ensures ParseAuxv(m, at, |A|, argv, envp) == Some(Parsed(|A|, argv, envp, aux))
  {
    ParseAux(m, p, A, E, aux, at);
  }

  /** parse_stack recovers exactly what an image was laid out from. */
  lemma {:induction false} ParseRecovers(m: Memory, p: nat, start: nat, mid: nat,
                                         argv: seq<seq<Byte>>, envp: seq<seq<Byte>>, aux: seq<Aux>)
    requires GoodInput(argv, envp, aux) && 0 < start && 0 < mid && Layout(m, p, p, start, mid, argv, envp, aux)
    ensures Parse(m, p) == Some(Parsed(|argv|, Present(argv), envp, aux))
  {
    StringsAreRead(m, p, start, argv);
    StringsAreRead(m, p, mid, envp);
    ParseTable(m, p, Shifted(Offsets(argv, start), p), Shifted(Offsets(envp, mid), p), argv, envp, aux);
  }
}
