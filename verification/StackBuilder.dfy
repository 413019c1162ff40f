/**
 create_args_env_aux and parse_stack as they run: write pointers advance
 through a scratch buffer, pointers are patched, the image is copied below the
 stack top and relocated; the parser walks it with three loops.
 */
module StackBuilder {
  import opened StackImage
  import opened Options

  const SCRATCH_BYTES: nat := 0x8000

  // ------------------------------------------------------------------- stores

  method StoreBytes(buf: array<Byte>, at: nat, data: seq<Byte>, ghost base: nat)
    requires at + |data| <= buf.Length
    modifies buf
    ensures buf[at..at + |data|] == data
    ensures Changed(Memory(base, old(buf[..])), Memory(base, buf[..]), base + at, base + at + |data|)
  {
    for i := 0 to |data|
      invariant forall j :: 0 <= j < i ==> buf[at + j] == data[j]
      invariant forall j :: 0 <= j < buf.Length && !(at <= j < at + i) ==> buf[j] == old(buf[j])
    {
      buf[at + i] := data[i];
    }
  }

  method StoreWord(buf: array<Byte>, base: nat, addr: nat, w: nat)
    requires base <= addr && addr + 8 <= base + buf.Length && IsWord(w)
    modifies buf
    ensures Changed(Memory(base, old(buf[..])), Memory(base, buf[..]), addr, addr + 8)
    ensures ReadWord(Memory(base, buf[..]), addr) == Some(w)
  {
    WordRoundTrip(w);
    var at, data := addr - base, Encode(w, 8);
    StoreBytes(buf, at, data, base);
    assert buf[..][at..at + 8] == buf[at..at + |data|];
  }

  /** Everything from `end` on is as it was. */
  ghost predicate Behind(before: seq<Byte>, after: seq<Byte>, end: nat) {
    |after| == |before| && forall k :: end <= k < |after| ==> after[k] == before[k]
  }

  /** Overwrites word j of a table of words at `at`. */
  method PatchWord(buf: array<Byte>, base: nat, at: nat, ghost ws: seq<nat>, j: nat, w: nat)
    requires base <= at && j < |ws| && at + 8 * |ws| <= base + buf.Length && IsWord(w)
    requires WordsAt(Memory(base, buf[..]), at, ws)
    modifies buf
    ensures WordsAt(Memory(base, buf[..]), at, ws[j := w])
    ensures Changed(Memory(base, old(buf[..])), Memory(base, buf[..]), at + 8 * j, at + 8 * j + 8)
  {
    ghost var before := Memory(base, buf[..]);
    StoreWord(buf, base, at + 8 * j, w);
    WordsPatched(before, Memory(base, buf[..]), at, ws, j, w);
  }

  /** `*ptr++ = w` behind the words written so far. */
  method PushWord(buf: array<Byte>, ptr: nat, w: nat, ghost ws: seq<nat>) returns (next: nat)
    requires ptr == 8 * |ws| && ptr + 8 <= buf.Length && IsWord(w) && WordsAt(Memory(0, buf[..]), 0, ws)
    modifies buf
    ensures next == ptr + 8 && WordsAt(Memory(0, buf[..]), 0, ws + [w])
    ensures Behind(old(buf[..]), buf[..], next)
  {
    ghost var before := Memory(0, buf[..]);
    StoreWord(buf, 0, ptr, w);
    WordsAppended(before, Memory(0, buf[..]), ws, w);
    next := ptr + 8;
  }

  lemma {:induction false} WordsAppended(m: Memory, n: Memory, ws: seq<nat>, w: nat)
    requires WordsAt(m, 0, ws) && Changed(m, n, 8 * |ws|, 8 * |ws| + 8) && ReadWord(n, 8 * |ws|) == Some(w)
    ensures WordsAt(n, 0, ws + [w])
  {
    var now := ws + [w];
    forall i | 0 <= i < |now|
      ensures WordAt(n, 0, now, i)
    {
      if i < |ws| {
        assert WordAt(m, 0, ws, i);
        WordKept(m, n, 0, 8 * |ws|, 0 + 8 * i);
      }
    }
  }

  function Repeat(w: nat, n: nat): (r: seq<nat>)
    ensures |r| == n
  {
    if n == 0 then [] else Repeat(w, n - 1) + [w]
  }

  /** n placeholder words. */
  method PushRepeated(buf: array<Byte>, ptr: nat, w: nat, n: nat, ghost ws: seq<nat>) returns (next: nat)
    requires ptr == 8 * |ws| && ptr + 8 * n <= buf.Length && IsWord(w) && WordsAt(Memory(0, buf[..]), 0, ws)
    modifies buf
    ensures next == ptr + 8 * n && WordsAt(Memory(0, buf[..]), 0, ws + Repeat(w, n))
    ensures Behind(old(buf[..]), buf[..], next)
  {
    next := ptr;
    ghost var now := ws;
    assert ws + Repeat(w, 0) == ws;
    for i := 0 to n
      invariant now == ws + Repeat(w, i) && next == ptr + 8 * i && WordsAt(Memory(0, buf[..]), 0, now)
      invariant Behind(old(buf[..]), buf[..], next)
    {
      next := PushWord(buf, next, w, now);
      now := now + [w];
    }
  }

  method PushPair(buf: array<Byte>, ptr: nat, e: Aux, ghost ws: seq<nat>) returns (next: nat)
    requires ptr == 8 * |ws| && ptr + 16 <= buf.Length && IsWord(e.kind) && IsWord(e.value)
    requires WordsAt(Memory(0, buf[..]), 0, ws)
    modifies buf
    ensures next == ptr + 16 && WordsAt(Memory(0, buf[..]), 0, ws + [e.kind, e.value])
    ensures Behind(old(buf[..]), buf[..], next)
  {
    next := PushWord(buf, ptr, e.kind, ws);
    next := PushWord(buf, next, e.value, ws + [e.kind]);
    assert ws + [e.kind] + [e.value] == ws + [e.kind, e.value];
  }

  method PushAux(buf: array<Byte>, ptr: nat, aux: seq<Aux>, ghost ws: seq<nat>) returns (next: nat)
    requires ptr == 8 * |ws| && ptr + 16 * |aux| <= buf.Length && WordsAt(Memory(0, buf[..]), 0, ws)
    requires forall i :: 0 <= i < |aux| ==> IsWord(aux[i].kind) && IsWord(aux[i].value)
    modifies buf
    ensures next == ptr + 16 * |aux| && WordsAt(Memory(0, buf[..]), 0, ws + AuxWords(aux))
    ensures Behind(old(buf[..]), buf[..], next)
  {
    next := ptr;
    ghost var now: seq<nat> := ws;
    assert ws + AuxWords([]) == ws;
    for i := 0 to |aux|
      invariant now == ws + AuxWords(aux[..i]) && next == ptr + 16 * i && WordsAt(Memory(0, buf[..]), 0, now)
      invariant Behind(old(buf[..]), buf[..], next)
    {
      next := PushPair(buf, next, aux[i], now);
      AuxWordsMore(aux, i);
      now := now + [aux[i].kind, aux[i].value];
    }
    assert aux[..|aux|] == aux;
  }

  lemma {:induction false} AuxWordsMore(aux: seq<Aux>, i: nat)
    requires i < |aux|
    ensures AuxWords(aux[..i + 1]) == AuxWords(aux[..i]) + [aux[i].kind, aux[i].value]
  {
    assert aux[..i + 1][..i] == aux[..i];
  }

  /** The word table with placeholder pointers. */
  method WriteTable(buf: array<Byte>, argc: nat, envc: nat, aux: seq<Aux>) returns (ptr: nat)
    requires TableSize(argc, envc, |aux|) <= buf.Length && IsWord(argc)
    requires forall i :: 0 <= i < |aux| ==> IsWord(aux[i].kind) && IsWord(aux[i].value)
    modifies buf
    ensures ptr == TableSize(argc, envc, |aux|)
    ensures WordsAt(Memory(0, buf[..]), 0, Table(Repeat(0x1234, argc), Repeat(0x5678, envc), aux))
    ensures Behind(old(buf[..]), buf[..], ptr)
  {
    ghost var ws: seq<nat> := [];
    ptr := PushWord(buf, 0, argc, ws);
    ws := ws + [argc];
    ptr := PushRepeated(buf, ptr, 0x1234, argc, ws);
    ws := ws + Repeat(0x1234, argc);
    ptr := PushWord(buf, ptr, 0, ws);
    ws := ws + [0];
    ptr := PushRepeated(buf, ptr, 0x5678, envc, ws);
    ws := ws + Repeat(0x5678, envc);
    ptr := PushWord(buf, ptr, 0, ws);
    ws := ws + [0];
    ptr := PushAux(buf, ptr, aux, ws);
    ws := ws + AuxWords(aux);
    ptr := PushPair(buf, ptr, Aux(0, 0), ws);
    assert ws + [Aux(0, 0).kind, Aux(0, 0).value] == Table(Repeat(0x1234, argc), Repeat(0x5678, envc), aux);
  }

  // ------------------------------------------------------------------ strings

  /** `now` is ws with the words idx, idx+1, ... replaced by the first n of vals. */
  ghost predicate Patched(now: seq<nat>, ws: seq<nat>, idx: nat, vals: seq<nat>, n: nat)
    requires idx + |vals| <= |ws| && n <= |vals|
  {
    |now| == |ws| && forall j :: 0 <= j < |ws| ==> now[j] == if idx <= j < idx + n then vals[j - idx] else ws[j]
  }

  /** Copies the strings one after the other and patches the table entries from idx on with their offsets. */
  method PlaceStrings(buf: array<Byte>, start: nat, ss: seq<seq<Byte>>, idx: nat, ghost ws: seq<nat>)
    returns (next: nat, ghost now: seq<nat>)
    requires idx + |ss| <= |ws| && 8 * |ws| <= start && start + Length(ss, |ss|) <= buf.Length && IsWord(buf.Length)
    requires WordsAt(Memory(0, buf[..]), 0, ws)
    modifies buf
    ensures next == start + Length(ss, |ss|)
    ensures Patched(now, ws, idx, Offsets(ss, start), |ss|) && WordsAt(Memory(0, buf[..]), 0, now)
    ensures StringsAt(Memory(0, buf[..]), ss, start, |ss|)
    ensures Same(Memory(0, old(buf[..])), Memory(0, buf[..]), 8 * |ws|, start)
    ensures Behind(old(buf[..]), buf[..], next)
  {
    next := start;
    now := ws;
    for i := 0 to |ss|
      invariant next == start + Length(ss, i)
      invariant Patched(now, ws, idx, Offsets(ss, start), i) && WordsAt(Memory(0, buf[..]), 0, now)
      invariant StringsAt(Memory(0, buf[..]), ss, start, i)
      invariant Same(Memory(0, old(buf[..])), Memory(0, buf[..]), 8 * |ws|, start)
      invariant Behind(old(buf[..]), buf[..], next)
    {
      LengthGrows(ss, i, |ss|);
      ghost var at := next;
      next := PlaceOne(buf, start, ss, i, next, idx + i, now);
      now := now[idx + i := at];
    }
  }

  /** One string: copied behind the previous ones, its offset stored in the table. */
  method PlaceOne(buf: array<Byte>, ghost start: nat, ss: seq<seq<Byte>>, i: nat, at: nat, j: nat,
                  ghost table: seq<nat>)
    returns (next: nat)
    requires i < |ss| && at == start + Length(ss, i) && at + |ss[i]| + 1 <= buf.Length && IsWord(buf.Length)
    requires j < |table| && 8 * |table| <= start
    requires WordsAt(Memory(0, buf[..]), 0, table) && StringsAt(Memory(0, buf[..]), ss, start, i)
    modifies buf
    ensures next == at + |ss[i]| + 1
    ensures WordsAt(Memory(0, buf[..]), 0, table[j := at]) && StringsAt(Memory(0, buf[..]), ss, start, i + 1)
    ensures Same(Memory(0, old(buf[..])), Memory(0, buf[..]), 8 * |table|, start)
    ensures Behind(old(buf[..]), buf[..], next)
  {
    CopyString(buf, start, ss, i, at, table);
    ghost var m := Memory(0, buf[..]);
    PatchWord(buf, 0, 0, table, j, at);
    ghost var n := Memory(0, buf[..]);
    assert Same(m, n, start, buf.Length);
    StringsKept(m, n, start, buf.Length, ss, start, i + 1);
    next := at + |ss[i]| + 1;
  }

  method CopyString(buf: array<Byte>, ghost start: nat, ss: seq<seq<Byte>>, i: nat, at: nat, ghost table: seq<nat>)
    requires i < |ss| && at == start + Length(ss, i) && at + |ss[i]| + 1 <= buf.Length && 8 * |table| <= start
    requires WordsAt(Memory(0, buf[..]), 0, table) && StringsAt(Memory(0, buf[..]), ss, start, i)
    modifies buf
    ensures WordsAt(Memory(0, buf[..]), 0, table) && StringsAt(Memory(0, buf[..]), ss, start, i + 1)
    ensures Same(Memory(0, old(buf[..])), Memory(0, buf[..]), 0, start)
    ensures Behind(old(buf[..]), buf[..], at + |ss[i]| + 1)
  {
    ghost var m := Memory(0, buf[..]);
    StoreBytes(buf, at, ss[i] + [0], 0);
    StringAppended(m, Memory(0, buf[..]), ss, start, i, table);
  }

  lemma {:induction false} StringAppended(m: Memory, n: Memory, ss: seq<seq<Byte>>, start: nat, i: nat, table: seq<nat>)
    requires i < |ss| && m.base == 0 && 8 * |table| <= start && start + Length(ss, i) + |ss[i]| + 1 <= |m.bytes|
    requires var at := start + Length(ss, i);
             Changed(m, n, at, at + |ss[i]| + 1) && n.bytes[at..at + |ss[i]| + 1] == ss[i] + [0]
    requires WordsAt(m, 0, table) && StringsAt(m, ss, start, i)
    ensures WordsAt(n, 0, table) && StringsAt(n, ss, start, i + 1)
  {
    var at, s := start + Length(ss, i), ss[i];
    assert Same(m, n, 0, at);
    WordsKept(m, n, 0, at, 0, table);
    StringsKept(m, n, start, at, ss, start, i);
    StringStored(n, at, s);
    assert StringAt(n, ss, start, i);
  }

  lemma {:induction false} StringStored(n: Memory, at: nat, s: seq<Byte>)
    requires n.base == 0 && at + |s| + 1 <= |n.bytes| && n.bytes[at..at + |s| + 1] == s + [0]
    ensures StringHere(n, at, s)
  {
    SubSlice(n.bytes, at, at + |s| + 1, 0, |s|);
    assert n.bytes[at + |s|] == n.bytes[at..at + |s| + 1][|s|];
  }

  // --------------------------------------------------------------- the builder

  /** The total length of the strings with their terminators. */
  method AsciiSize(ss: seq<seq<Byte>>) returns (total: nat)
    ensures total == Length(ss, |ss|)
  {
    total := 0;
    for i := 0 to |ss|
      invariant total == Length(ss, i)
    {
      total := total + |ss[i]| + 1;
    }
  }

  /** The alignment loop: the distance to the next multiple of 16. */
  method AlignTo16(bottom: nat) returns (pad: nat)
    ensures pad == PadTo16(bottom)
  {
    pad := 0;
    while (bottom + pad) % 16 != 0
      invariant 0 <= pad <= PadTo16(bottom)
      decreases PadTo16(bottom) - pad
    {
      pad := pad + 1;
    }
  }

  method FindStringStart(scratch: nat, argv: seq<seq<Byte>>, envp: seq<seq<Byte>>, aux: seq<Aux>) returns (start: nat)
    ensures start == StringStart(argv, envp, aux, scratch)
  {
    var ptr := TableSize(|argv|, |envp|, |aux|);
    var args := AsciiSize(argv);
    var envs := AsciiSize(envp);
    var pad := AlignTo16(scratch + ptr + args + envs);
    start := ptr + pad + 8;
  }

  /** The image in the scratch buffer, pointers still relative to its start. */
  method BuildScratch(buf: array<Byte>, scratch: nat, argv: seq<seq<Byte>>, envp: seq<seq<Byte>>, aux: seq<Aux>)
    returns (size: nat, ghost start: nat, ghost mid: nat)
    requires ImageSize(argv, envp, aux, scratch) <= buf.Length && IsWord(buf.Length) && GoodInput(argv, envp, aux)
    modifies buf
    ensures TableSize(|argv|, |envp|, |aux|) <= start && mid == start + Length(argv, |argv|)
    ensures size == mid + Length(envp, |envp|) == ImageSize(argv, envp, aux, scratch)
    ensures Layout(Memory(0, buf[..]), 0, 0, start, mid, argv, envp, aux)
    ensures Stored(old(buf[..]), buf[..], scratch, argv, envp, aux)
  {
    var from := FindStringStart(scratch, argv, envp, aux);
    var table := WriteTable(buf, |argv|, |envp|, aux);
    start := from;
    size, mid := FillStrings(buf, from, argv, envp, aux);
    LastByte(buf[..], start, mid, argv, envp, aux, scratch);
  }

  method FillStrings(buf: array<Byte>, start: nat, argv: seq<seq<Byte>>, envp: seq<seq<Byte>>, aux: seq<Aux>)
    returns (size: nat, ghost mid: nat)
    requires TableSize(|argv|, |envp|, |aux|) <= start
      && start + Length(argv, |argv|) + Length(envp, |envp|) <= buf.Length
    requires IsWord(buf.Length)
    requires WordsAt(Memory(0, buf[..]), 0, Table(Repeat(0x1234, |argv|), Repeat(0x5678, |envp|), aux))
    modifies buf
    ensures mid == start + Length(argv, |argv|) && size == mid + Length(envp, |envp|)
    ensures Layout(Memory(0, buf[..]), 0, 0, start, mid, argv, envp, aux)
    ensures Behind(old(buf[..]), buf[..], if |argv| + |envp| > 0 then size else TableSize(|argv|, |envp|, |aux|))
  {
    ghost var A0, E0 := Repeat(0x1234, |argv|), Repeat(0x5678, |envp|);
    ghost var A := Offsets(argv, start);
    var next, now := PlaceStrings(buf, start, argv, 1, Table(A0, E0, aux));
    mid := next;
    PatchedArgs(now, A0, A, E0, aux);
    ghost var m := Memory(0, buf[..]);
    size, now := PlaceStrings(buf, next, envp, 2 + |argv|, now);
    PatchedEnv(now, A, E0, Offsets(envp, mid), aux);
    StringsKept(m, Memory(0, buf[..]), start, mid, argv, start, |argv|);
    ShiftedByZero(A);
    ShiftedByZero(Offsets(envp, mid));
  }

  /**
   One past the last byte stored in the scratch buffer: the terminator of the
   last string, or the table without strings.
   */
  function WriteEnd(argv: seq<seq<Byte>>, envp: seq<seq<Byte>>, aux: seq<Aux>, scratch: nat): nat {
    if |argv| + |envp| > 0 then ImageSize(argv, envp, aux, scratch) else TableSize(0, 0, |aux|)
  }

  /** That byte is 0: the terminator of a string, or the high byte of the AT_NULL value. */
  lemma {:induction false} LastByte(b: seq<Byte>, start: nat, mid: nat,
                                    argv: seq<seq<Byte>>, envp: seq<seq<Byte>>, aux: seq<Aux>, scratch: nat)
    requires start == StringStart(argv, envp, aux, scratch) && mid == start + Length(argv, |argv|)
    requires ImageSize(argv, envp, aux, scratch) <= |b| && Layout(Memory(0, b), 0, 0, start, mid, argv, envp, aux)
    ensures 0 < WriteEnd(argv, envp, aux, scratch) <= |b| && b[WriteEnd(argv, envp, aux, scratch) - 1] == 0
  {
    var m := Memory(0, b);
    if |envp| > 0 {
      assert StringAt(m, envp, 0 + mid, |envp| - 1);
    } else if |argv| > 0 {
      assert StringAt(m, argv, 0 + start, |argv| - 1);
    } else {
      var ws := Table([], [], aux);
      assert Offsets(argv, start) == [] && Offsets(envp, mid) == [];
      assert |ws| == 2 * |aux| + 5 && ws[|ws| - 1] == 0;
      assert WordAt(m, 0, ws, |ws| - 1);
      ZeroWord(b[8 * (|ws| - 1)..8 * (|ws| - 1) + 8]);
    }
  }

  /** A word is 0 only when all its bytes are. */
  lemma {:induction false} ZeroWord(b: seq<Byte>)
    requires Decode(b) == 0
    ensures forall k :: 0 <= k < |b| ==> b[k] == 0
  {
    if b != [] { ZeroWord(b[1..]); }
  }

  lemma {:induction false} ShiftedByZero(o: seq<nat>)
    ensures Shifted(o, 0) == o
  {
  }

  lemma {:induction false} PatchedArgs(now: seq<nat>, A: seq<nat>, B: seq<nat>, E: seq<nat>, aux: seq<Aux>)
    requires |A| == |B| && Patched(now, Table(A, E, aux), 1, B, |B|)
    ensures now == Table(B, E, aux)
  {
    assert |Table(A, E, aux)| == |Table(B, E, aux)|;
  }

  lemma {:induction false} PatchedEnv(now: seq<nat>, A: seq<nat>, E: seq<nat>, G: seq<nat>, aux: seq<Aux>)
    requires |E| == |G| && Patched(now, Table(A, E, aux), 2 + |A|, G, |G|)
    ensures now == Table(A, G, aux)
  {
    assert |Table(A, E, aux)| == |Table(A, G, aux)|;
  }

  // -------------------------------------------------------------- relocation

  /** Adds `delta` to n table entries from idx on, leaving NULL entries alone. */
  method Relocate(mem: array<Byte>, base: nat, p: nat, idx: nat, n: nat, delta: nat, ghost ws: seq<nat>,
                  ghost vals: seq<nat>)
    returns (ghost now: seq<nat>)
    requires base <= p && idx + n <= |ws| && p + 8 * |ws| <= base + mem.Length && WordsAt(Memory(base, mem[..]), p, ws)
    requires |vals| == n && forall i :: 0 <= i < n ==> ws[idx + i] == vals[i]
    requires forall i :: 0 <= i < n ==> 0 < vals[i] && IsWord(vals[i] + delta)
    modifies mem
    ensures Patched(now, ws, idx, Shifted(vals, delta), n) && WordsAt(Memory(base, mem[..]), p, now)
    ensures Changed(Memory(base, old(mem[..])), Memory(base, mem[..]), p, p + 8 * |ws|)
  {
    now := ws;
    for i := 0 to n
      invariant Patched(now, ws, idx, Shifted(vals, delta), i) && WordsAt(Memory(base, mem[..]), p, now)
      invariant Changed(Memory(base, old(mem[..])), Memory(base, mem[..]), p, p + 8 * |ws|)
    {
      assert now[idx + i] == ws[idx + i] == vals[i];
      RelocateOne(mem, base, p, idx + i, delta, now);
      now := now[idx + i := vals[i] + delta];
    }
  }

  method RelocateOne(mem: array<Byte>, base: nat, p: nat, j: nat, delta: nat, ghost now: seq<nat>)
    requires base <= p && j < |now| && p + 8 * |now| <= base + mem.Length && WordsAt(Memory(base, mem[..]), p, now)
    requires IsWord(now[j] + delta)
    modifies mem
    ensures WordsAt(Memory(base, mem[..]), p, if now[j] == 0 then now else now[j := now[j] + delta])
    ensures Changed(Memory(base, old(mem[..])), Memory(base, mem[..]), p, p + 8 * |now|)
  {
    assert WordAt(Memory(base, mem[..]), p, now, j);
    var w := ReadWord(Memory(base, mem[..]), p + 8 * j).value;
    if w != 0 {
      PatchWord(mem, base, p, now, j, w + delta);
    }
  }

  method RelocateTable(mem: array<Byte>, base: nat, p: nat, delta: nat, ghost A: seq<nat>, ghost E: seq<nat>,
                       ghost aux: seq<Aux>, argc: nat, envc: nat)
    requires argc == |A| && envc == |E| && base <= p && p + 8 * |Table(A, E, aux)| <= base + mem.Length
    requires forall i :: 0 <= i < |A| ==> 0 < A[i] && IsWord(A[i] + delta)
    requires forall i :: 0 <= i < |E| ==> 0 < E[i] && IsWord(E[i] + delta)
    requires WordsAt(Memory(base, mem[..]), p, Table(A, E, aux))
    modifies mem
    ensures WordsAt(Memory(base, mem[..]), p, Table(Shifted(A, delta), Shifted(E, delta), aux))
    ensures Changed(Memory(base, old(mem[..])), Memory(base, mem[..]), p, p + 8 * |Table(A, E, aux)|)
  {
    var now := Relocate(mem, base, p, 1, argc, delta, Table(A, E, aux), A);
    ghost var B := Shifted(A, delta);
    PatchedArgs(now, A, B, E, aux);
    now := Relocate(mem, base, p, 2 + argc, envc, delta, now, E);
    PatchedEnv(now, B, E, Shifted(E, delta), aux);
  }

  lemma {:induction false} OffsetsFit(ss: seq<seq<Byte>>, start: nat, p: nat)
    requires 0 < start && IsWord(p + start + Length(ss, |ss|))
    ensures forall i :: 0 <= i < |ss| ==> 0 < Offsets(ss, start)[i] && IsWord(Offsets(ss, start)[i] + p)
  {
    forall i | 0 <= i < |ss|
      ensures 0 < Offsets(ss, start)[i] && IsWord(Offsets(ss, start)[i] + p)
    {
      LengthGrows(ss, i, |ss|);
    }
  }

  /** Copies the finished scratch image to address p and relocates its pointers. */
  method InstallImage(mem: array<Byte>, base: nat, p: nat, buf: array<Byte>, size: nat,
                      argv: seq<seq<Byte>>, envp: seq<seq<Byte>>, aux: seq<Aux>, ghost start: nat, ghost mid: nat)
    requires mem != buf && size <= buf.Length && base <= p && p + size <= base + mem.Length && IsWord(p + size)
    requires TableSize(|argv|, |envp|, |aux|) <= start && mid == start + Length(argv, |argv|)
      && size == mid + Length(envp, |envp|)
    requires TableSize(|argv|, |envp|, |aux|) < size && Layout(Memory(0, buf[..]), 0, 0, start, mid, argv, envp, aux)
    modifies mem
    ensures Changed(Memory(base, old(mem[..])), Memory(base, mem[..]), p, p + size)
    ensures Layout(Memory(base, mem[..]), p, p, start, mid, argv, envp, aux)
    ensures mem[p - base + size - 1] == buf[size - 1]
  {
    StoreBytes(mem, p - base, buf[0..size], base);
    ghost var m := Memory(base, mem[..]);
    assert m.bytes[p - base + size - 1] == buf[size - 1];
    LayoutCopied(Memory(0, buf[..]), m, p, size, start, mid, argv, envp, aux);
    OffsetsFit(argv, start, p);
    OffsetsFit(envp, mid, p);
    RelocateTable(mem, base, p, p, Offsets(argv, start), Offsets(envp, mid), aux, |argv|, |envp|);
    StringsUntouched(m, Memory(base, mem[..]), p, start, mid, argv, envp, aux);
  }

  lemma {:induction false} LayoutCopied(m: Memory, n: Memory, p: nat, size: nat, start: nat, mid: nat,
                                        argv: seq<seq<Byte>>, envp: seq<seq<Byte>>, aux: seq<Aux>)
    requires Copied(m, n, p, size) && TableSize(|argv|, |envp|, |aux|) <= start
    requires mid == start + Length(argv, |argv|) && size == mid + Length(envp, |envp|)
    requires Layout(m, 0, 0, start, mid, argv, envp, aux)
    ensures WordsAt(n, p, Table(Offsets(argv, start), Offsets(envp, mid), aux))
    ensures StringsAt(n, argv, p + start, |argv|) && StringsAt(n, envp, p + mid, |envp|)
  {
    ShiftedByZero(Offsets(argv, start));
    ShiftedByZero(Offsets(envp, mid));
    WordsCopied(m, n, p, size, Table(Offsets(argv, start), Offsets(envp, mid), aux));
    StringsCopied(m, n, p, size, argv, 0 + start);
    StringsCopied(m, n, p, size, envp, 0 + mid);
  }

  lemma {:induction false} StringsUntouched(m: Memory, n: Memory, p: nat, start: nat, mid: nat,
                                            argv: seq<seq<Byte>>, envp: seq<seq<Byte>>, aux: seq<Aux>)
    requires TableSize(|argv|, |envp|, |aux|) <= start <= mid && Changed(m, n, p, p + TableSize(|argv|, |envp|, |aux|))
    requires StringsAt(m, argv, p + start, |argv|) && StringsAt(m, envp, p + mid, |envp|)
    ensures StringsAt(n, argv, p + start, |argv|) && StringsAt(n, envp, p + mid, |envp|)
  {
    var lo, hi := p + start, p + mid + Length(argv, |argv|) + Length(envp, |envp|);
    assert Same(m, n, lo, hi);
    StringsKept(m, n, lo, hi, argv, p + start, |argv|);
    StringsKept(m, n, lo, hi, envp, p + mid, |envp|);
  }

  function OrEmpty<T>(x: Option<seq<T>>): seq<T> {
    match x
    case None => []
    case Some(s) => s
  }

  /**
   create_args_env_aux from memory m to memory n: None, for the two panics,
   exactly for an image over max_size or a NULL stack.  Otherwise the image
   ends at the stack top, nothing else changes and what parse_stack reads at
   its address is exactly the input.
   */
  ghost predicate Created(m: Memory, n: Memory, r: Option<nat>, stack: nat, maxSize: nat, scratch: nat,
                          argv: seq<seq<Byte>>, envp: seq<seq<Byte>>, aux: seq<Aux>) {
    var size := ImageSize(argv, envp, aux, scratch);
    && (r.None? <==> size > maxSize || stack == 0)
    && (r.None? ==> n == m)
    && (r.Some? ==>
          && r.value + size == stack && Changed(m, n, r.value, stack)
          && Parse(n, r.value) == Some(Parsed(|argv|, Present(argv), envp, aux)))
  }

  /** The stack memory from the scratch buffer on: stores reach up to WriteEnd, the last of them a 0, and no further. */
  ghost predicate Stored(before: seq<Byte>, after: seq<Byte>, scratch: nat,
                         argv: seq<seq<Byte>>, envp: seq<seq<Byte>>, aux: seq<Aux>) {
    var end := WriteEnd(argv, envp, aux, scratch);
    Behind(before, after, end) && 0 < end <= |after| && after[end - 1] == 0
  }

  /** With an image made, its last byte was read at ImageSize - 1. */
  ghost predicate LastCopied(b: seq<Byte>, n: Memory, r: Option<nat>, size: nat) {
    r.Some? ==>
      && 0 < size <= |b| && n.base <= r.value && r.value + size <= n.base + |n.bytes|
      && n.bytes[r.value - n.base + size - 1] == b[size - 1]
  }

  /** A store leaves the buffer. */
  ghost predicate WritesPast(argv: seq<seq<Byte>>, envp: seq<seq<Byte>>, aux: seq<Aux>, scratch: nat) {
    WriteEnd(argv, envp, aux, scratch) > SCRATCH_BYTES
  }

  /** The copy leaves the buffer. */
  ghost predicate ReadsPast(argv: seq<seq<Byte>>, envp: seq<seq<Byte>>, aux: seq<Aux>, scratch: nat) {
    ImageSize(argv, envp, aux, scratch) > SCRATCH_BYTES
  }

  /**
   Memory behind the buffer stays as it was, whatever it holds, exactly when no
   store leaves the buffer.
   */
  lemma {:induction false} WritesPastExactly(before: seq<Byte>, after: seq<Byte>, scratch: nat,
                                             argv: seq<seq<Byte>>, envp: seq<seq<Byte>>, aux: seq<Aux>)
    requires Stored(before, after, scratch, argv, envp, aux) && SCRATCH_BYTES <= |before|
    ensures !WritesPast(argv, envp, aux, scratch) ==> after[SCRATCH_BYTES..] == before[SCRATCH_BYTES..]
    ensures WritesPast(argv, envp, aux, scratch) && before[WriteEnd(argv, envp, aux, scratch) - 1] != 0 ==>
              after[SCRATCH_BYTES..] != before[SCRATCH_BYTES..]
  {
    var end := WriteEnd(argv, envp, aux, scratch);
    var x, y := after[SCRATCH_BYTES..], before[SCRATCH_BYTES..];
    if end > SCRATCH_BYTES {
      assert x[end - 1 - SCRATCH_BYTES] == after[end - 1] && y[end - 1 - SCRATCH_BYTES] == before[end - 1];
    } else {
      assert forall k :: 0 <= k < |x| ==> x[k] == after[SCRATCH_BYTES + k];
      assert x == y;
    }
  }

  /** Without strings the image ends in what the memory held there before the call. */
  lemma {:induction false} StaleTail(before: seq<Byte>, after: seq<Byte>, n: Memory, p: nat, scratch: nat,
                                     aux: seq<Aux>)
    requires Stored(before, after, scratch, [], [], aux)
    requires LastCopied(after, n, Some(p), ImageSize([], [], aux, scratch))
    ensures n.bytes[p - n.base + ImageSize([], [], aux, scratch) - 1] == before[ImageSize([], [], aux, scratch) - 1]
  {
    assert TableSize(0, 0, |aux|) < ImageSize([], [], aux, scratch);
  }

  /** 2045 auxiliary entries and no strings: every store stays in the buffer, the copy reads 8 bytes behind it. */
  lemma {:induction false} OnlyReadsPast(aux: seq<Aux>, scratch: nat)
    requires |aux| == 2045 && scratch % 16 == 0
    ensures !WritesPast([], [], aux, scratch) && ReadsPast([], [], aux, scratch)
    ensures ImageSize([], [], aux, scratch) == SCRATCH_BYTES + 8
  {
  }

  /** One argument of 32768 characters: its terminator is stored behind the buffer. */
  lemma {:induction false} LongArgumentWritesPast(arg: seq<Byte>, scratch: nat)
    requires |arg| == SCRATCH_BYTES
    ensures WritesPast([arg], [], [], scratch) && ReadsPast([arg], [], [], scratch)
  {
    assert Length([arg], 1) == Length([arg], 0) + |arg| + 1;
  }

  /**
   create_args_env_aux; the max_size bytes below the stack top are mapped, NULL
   arrays count as empty, and buf is the stack memory from the scratch buffer
   on, as far as the image reaches.
   */
  method CreateArgsEnvAux(mem: array<Byte>, base: nat, stack: nat, maxSize: nat, buf: array<Byte>, scratch: nat,
                          argvIn: Option<seq<seq<Byte>>>, envpIn: Option<seq<seq<Byte>>>, auxIn: Option<seq<Aux>>)
    returns (r: Option<nat>)
    requires mem != buf && IsWord(buf.Length) && GoodInput(OrEmpty(argvIn), OrEmpty(envpIn), OrEmpty(auxIn))
    requires ImageSize(OrEmpty(argvIn), OrEmpty(envpIn), OrEmpty(auxIn), scratch) <= buf.Length
    requires stack != 0 ==> base + maxSize <= stack <= base + mem.Length && IsWord(stack)
    modifies mem, buf
    ensures Created(Memory(base, old(mem[..])), Memory(base, mem[..]), r, stack, maxSize, scratch,
                    OrEmpty(argvIn), OrEmpty(envpIn), OrEmpty(auxIn))
    // what parse_stack reads is what was given; a NULL array counts as empty
    ensures r.Some? ==>
      var got := Parse(Memory(base, mem[..]), r.value);
      && got.Some? && got.value.argc == |got.value.argv|
      && (argvIn.Some? ==> |got.value.argv| == |argvIn.value|
                           && forall i :: 0 <= i < |argvIn.value| ==> got.value.argv[i] == Some(argvIn.value[i]))
      && (envpIn.Some? ==> got.value.envp == envpIn.value) && (auxIn.Some? ==> got.value.aux == auxIn.value)
      && (argvIn.None? ==> got.value.argv == []) && (envpIn.None? ==> got.value.envp == [])
      && (auxIn.None? ==> got.value.aux == [])
    ensures r.Some? && scratch % 16 == 0 && stack % 16 == 8 ==> r.value % 16 == 0
    ensures Stored(old(buf[..]), buf[..], scratch, OrEmpty(argvIn), OrEmpty(envpIn), OrEmpty(auxIn))
    ensures LastCopied(buf[..], Memory(base, mem[..]), r,
                       ImageSize(OrEmpty(argvIn), OrEmpty(envpIn), OrEmpty(auxIn), scratch))
  {
    var argv, envp, aux := OrEmpty(argvIn), OrEmpty(envpIn), OrEmpty(auxIn);
    r := CreateImage(mem, base, stack, maxSize, buf, scratch, argv, envp, aux);
    PresentAll(argv);
    if r.Some? && scratch % 16 == 0 && stack % 16 == 8 { StartAligned(argv, envp, aux, scratch, stack, r.value); }
  }

  method CreateImage(mem: array<Byte>, base: nat, stack: nat, maxSize: nat, buf: array<Byte>, scratch: nat,
                     argv: seq<seq<Byte>>, envp: seq<seq<Byte>>, aux: seq<Aux>)
    returns (r: Option<nat>)
    requires mem != buf && IsWord(buf.Length) && GoodInput(argv, envp, aux)
    requires ImageSize(argv, envp, aux, scratch) <= buf.Length
    requires stack != 0 ==> base + maxSize <= stack <= base + mem.Length && IsWord(stack)
    modifies mem, buf
    ensures Created(Memory(base, old(mem[..])), Memory(base, mem[..]), r, stack, maxSize, scratch, argv, envp, aux)
    ensures Stored(old(buf[..]), buf[..], scratch, argv, envp, aux)
    ensures LastCopied(buf[..], Memory(base, mem[..]), r, ImageSize(argv, envp, aux, scratch))
  {
    var size, start, mid := BuildScratch(buf, scratch, argv, envp, aux);
    r := CopyImage(mem, base, stack, maxSize, buf, size, scratch, argv, envp, aux, start, mid);
  }

  /** The image at p reads back as the input. */
  method PlaceImage(mem: array<Byte>, base: nat, p: nat, buf: array<Byte>, size: nat,
                    argv: seq<seq<Byte>>, envp: seq<seq<Byte>>, aux: seq<Aux>, ghost start: nat, ghost mid: nat)
    requires mem != buf && size <= buf.Length && base <= p && p + size <= base + mem.Length && IsWord(p + size)
    requires TableSize(|argv|, |envp|, |aux|) <= start && mid == start + Length(argv, |argv|)
    requires TableSize(|argv|, |envp|, |aux|) < size == mid + Length(envp, |envp|) && GoodInput(argv, envp, aux)
    requires Layout(Memory(0, buf[..]), 0, 0, start, mid, argv, envp, aux)
    modifies mem
    ensures Changed(Memory(base, old(mem[..])), Memory(base, mem[..]), p, p + size)
    ensures Parse(Memory(base, mem[..]), p) == Some(Parsed(|argv|, Present(argv), envp, aux))
    ensures LastCopied(buf[..], Memory(base, mem[..]), Some(p), size)
  {
    InstallImage(mem, base, p, buf, size, argv, envp, aux, start, mid);
    ParseRecovers(Memory(base, mem[..]), p, start, mid, argv, envp, aux);
  }

  /** The two panics, the copy below the stack top and the relocation. */
  method CopyImage(mem: array<Byte>, base: nat, stack: nat, maxSize: nat, buf: array<Byte>, size: nat,
                   ghost scratch: nat, argv: seq<seq<Byte>>, envp: seq<seq<Byte>>, aux: seq<Aux>,
                   ghost start: nat, ghost mid: nat)
    returns (r: Option<nat>)
    requires mem != buf && GoodInput(argv, envp, aux)
    requires size == ImageSize(argv, envp, aux, scratch) <= buf.Length
    requires start == StringStart(argv, envp, aux, scratch) && mid == start + Length(argv, |argv|)
    requires Layout(Memory(0, buf[..]), 0, 0, start, mid, argv, envp, aux)
    requires stack != 0 ==> base + maxSize <= stack <= base + mem.Length && IsWord(stack)
    modifies mem
    ensures Created(Memory(base, old(mem[..])), Memory(base, mem[..]), r, stack, maxSize, scratch, argv, envp, aux)
    ensures LastCopied(buf[..], Memory(base, mem[..]), r, size)
  {
    if size > maxSize {
      return None;
    }
    if stack == 0 {
      return None;
    }
    var p := stack - size;
    PlaceImage(mem, base, p, buf, size, argv, envp, aux, start, mid);
    r := Some(p);
  }

  lemma {:induction false} StartAligned(argv: seq<seq<Byte>>, envp: seq<seq<Byte>>, aux: seq<Aux>, scratch: nat,
                                        stack: nat, p: nat)
    requires scratch % 16 == 0 && stack % 16 == 8 && p + ImageSize(argv, envp, aux, scratch) == stack
    ensures p % 16 == 0
  {
    ImageAligned(scratch, TableSize(|argv|, |envp|, |aux|), Length(argv, |argv|), Length(envp, |envp|), stack);
  }

  // ---------------------------------------------------------------- the parser

  /** parse_stack with its three loops; None when a read leaves the mapped range. */
  method ParseStack(m: Memory, p: nat) returns (r: Option<Parsed>)
    ensures r == Parse(m, p)
  {
    var argc := ReadWord(m, p);
    if argc.None? { return None; }
    var argv := ParseArgv(m, p + 8, argc.value);
    if argv.None? { return None; }
    r := ParseStackEnv(m, p + 8 + 8 * (argc.value + 1), argc.value, argv.value);
  }

  method ParseStackEnv(m: Memory, at: nat, argc: nat, argv: seq<Option<seq<Byte>>>) returns (r: Option<Parsed>)
    ensures r == ParseEnvp(m, at, argc, argv)
  {
    var envp := ParseEnvpLoop(m, at);
    if envp.None? { return None; }
    r := ParseStackAux(m, at + 8 * (|envp.value| + 1), argc, argv, envp.value);
  }

  method ParseStackAux(m: Memory, at: nat, argc: nat, argv: seq<Option<seq<Byte>>>, envp: seq<seq<Byte>>)
    returns (r: Option<Parsed>)
    ensures r == ParseAuxv(m, at, argc, argv, envp)
  {
    var aux := ParseAuxvLoop(m, at);
    if aux.None? { return None; }
    r := Some(Parsed(argc, argv, envp, aux.value));
  }

  method ParseArgv(m: Memory, at: nat, argc: nat) returns (r: Option<seq<Option<seq<Byte>>>>)
    ensures r == ReadArgs(m, at, argc)
  {
    var args: seq<Option<seq<Byte>>> := [];
    for i := 0 to argc
      invariant ReadArgs(m, at, i) == Some(args)
    {
      var w := ReadWord(m, at + 8 * i);
      if w.None? {
        ReadArgsFails(m, at, i + 1, argc);
        return None;
      }
      if w.value == 0 {
        args := args + [None];
      } else {
        var s := ReadString(m, w.value);
        if s.None? {
          ReadArgsFails(m, at, i + 1, argc);
          return None;
        }
        args := args + [s];
      }
    }
    r := Some(args);
  }

  lemma {:induction false} ReadArgsFails(m: Memory, at: nat, i: nat, n: nat)
    requires ReadArgs(m, at, i).None? && i <= n
    ensures ReadArgs(m, at, n).None?
    decreases n
  {
    if i < n { ReadArgsFails(m, at, i, n - 1); }
  }

  /** A failure after a prefix, or the prefix and the rest. */
  ghost predicate Extends<T>(all: Option<seq<T>>, done: seq<T>, rest: Option<seq<T>>) {
    if rest.None? then all.None? else all == Some(done + rest.value)
  }

  lemma {:induction false} ExtendsBounds<T>(all: Option<seq<T>>, done: seq<T>)
    ensures Extends(all, [], all)
    ensures Extends(all, done, Some([])) ==> all == Some(done)
  {
    if all.Some? { assert [] + all.value == all.value; }
    assert done + [] == done;
  }

  method ParseEnvpLoop(m: Memory, at: nat) returns (r: Option<seq<seq<Byte>>>)
    ensures r == ReadEnv(m, at)
  {
    var env: seq<seq<Byte>> := [];
    var w := ReadWord(m, at);
    ExtendsBounds(ReadEnv(m, at), env);
    while w.Some? && w.value != 0
      invariant w == ReadWord(m, at + 8 * |env|)
      invariant Extends(ReadEnv(m, at), env, ReadEnv(m, at + 8 * |env|))
      decreases m.base + |m.bytes| - (at + 8 * |env|)
    {
      var s := ReadString(m, w.value);
      if s.None? { return None; }
      EnvExtends(m, at, env, s.value);
      env := env + [s.value];
      w := ReadWord(m, at + 8 * |env|);
    }
    if w.None? { return None; }
    ExtendsBounds(ReadEnv(m, at), env);
    r := Some(env);
  }

  lemma {:induction false} EnvExtends(m: Memory, at: nat, env: seq<seq<Byte>>, s: seq<Byte>)
    requires var here := at + 8 * |env|; var w := ReadWord(m, here);
             w.Some? && w.value != 0 && ReadString(m, w.value) == Some(s)
               && Extends(ReadEnv(m, at), env, ReadEnv(m, here))
    ensures Extends(ReadEnv(m, at), env + [s], ReadEnv(m, at + 8 * |env + [s]|))
  {
    var rest := ReadEnv(m, at + 8 * |env| + 8);
    assert at + 8 * |env + [s]| == at + 8 * |env| + 8;
    if rest.Some? { assert env + ([s] + rest.value) == env + [s] + rest.value; }
  }

  method ParseAuxvLoop(m: Memory, at: nat) returns (r: Option<seq<Aux>>)
    ensures r == ReadAux(m, at)
  {
    var aux: seq<Aux> := [];
    var w := ReadWord(m, at);
    ExtendsBounds(ReadAux(m, at), aux);
    while w.Some? && w.value != 0
      invariant w == ReadWord(m, at + 16 * |aux|)
      invariant Extends(ReadAux(m, at), aux, ReadAux(m, at + 16 * |aux|))
      decreases m.base + |m.bytes| - (at + 16 * |aux|)
    {
      var value := ReadWord(m, at + 16 * |aux| + 8);
      if value.None? { return None; }
      AuxExtends(m, at, aux, Aux(w.value, value.value));
      aux := aux + [Aux(w.value, value.value)];
      w := ReadWord(m, at + 16 * |aux|);
    }
    if w.None? { return None; }
    ExtendsBounds(ReadAux(m, at), aux);
    r := Some(aux);
  }

  lemma {:induction false} AuxExtends(m: Memory, at: nat, aux: seq<Aux>, e: Aux)
    requires var here := at + 16 * |aux|;
             ReadWord(m, here) == Some(e.kind) && e.kind != 0 && ReadWord(m, here + 8) == Some(e.value)
             && Extends(ReadAux(m, at), aux, ReadAux(m, here))
    ensures Extends(ReadAux(m, at), aux + [e], ReadAux(m, at + 16 * |aux + [e]|))
  {
    var rest := ReadAux(m, at + 16 * |aux| + 16);
    assert at + 16 * |aux + [e]| == at + 16 * |aux| + 16;
    if rest.Some? { assert aux + ([e] + rest.value) == aux + [e] + rest.value; }
  }
}
