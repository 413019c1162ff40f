/**
 The spin mutex and the counting semaphore as an interleaving of any number of
 threads.  Every access to shared memory is one step: the test-and-set of the
 lock flag, the test of `count`, the load and the store of `count--` and
 `count++`, and the clear of the flag.
 */
module Semaphore {

  // ------------------------------------------------------------------ protocol

  /** Where a thread is: the next shared access it makes. */
  datatype Pc =
    | Idle
    | WaitLock | WaitTest | WaitYield | WaitLoad | WaitStore(seen: int) | WaitUnlock
    | SignalLock | SignalLoad | SignalStore(seen: int) | SignalUnlock

  datatype State = State(flag: bool, count: int, pcs: seq<Pc>, waits: nat, signals: nat)

  datatype Event = CallWait(thread: nat) | CallSignal(thread: nat) | Run(thread: nat)

  /** Between a successful test-and-set and the matching clear. */
  predicate Inside(pc: Pc) {
    !(pc.Idle? || pc.WaitLock? || pc.SignalLock?)
  }

  predicate Enabled(s: State, e: Event) {
    e.thread < |s.pcs| && (e.Run? <==> !s.pcs[e.thread].Idle?)
  }

  function Goto(s: State, t: nat, pc: Pc): State
    requires t < |s.pcs|
  {
    s.(pcs := s.pcs[t := pc])
  }

  /** One step of one thread. */
  function Step(s: State, e: Event): State
    requires Enabled(s, e)
  {
    var t := e.thread;
    match e
    case CallWait(_) => Goto(s, t, WaitLock)
    case CallSignal(_) => Goto(s, t, SignalLock)
    case Run(_) =>
      match s.pcs[t]
      case Idle => s
      case WaitLock => if s.flag then s else Goto(s, t, WaitTest).(flag := true)
      case WaitTest => Goto(s, t, if s.count <= 0 then WaitYield else WaitLoad)
      case WaitYield => Goto(s, t, WaitLock).(flag := false)
      case WaitLoad => Goto(s, t, WaitStore(s.count))
      case WaitStore(seen) => Goto(s, t, WaitUnlock).(count := seen - 1)
      case WaitUnlock => Goto(s, t, Idle).(flag := false, waits := s.waits + 1)
      case SignalLock => if s.flag then s else Goto(s, t, SignalLoad).(flag := true)
      case SignalLoad => Goto(s, t, SignalStore(s.count))
      case SignalStore(seen) => Goto(s, t, SignalUnlock).(count := seen + 1)
      case SignalUnlock => Goto(s, t, Idle).(flag := false, signals := s.signals + 1)
  }

  /** semaphore_init: the flag clear, nobody inside. */
  function Initial(count: int, threads: nat): State {
    State(false, count, seq(threads, i => Idle), 0, 0)
  }

  predicate IsRun(s: State, es: seq<Event>)
    decreases |es|
  {
    es == [] || (Enabled(s, es[0]) && IsRun(Step(s, es[0]), es[1..]))
  }

  function After(s: State, es: seq<Event>): State
    requires IsRun(s, es)
    decreases |es|
  {
    if es == [] then s else After(Step(s, es[0]), es[1..])
  }

  // ------------------------------------------------------ the atomic semaphore

  /** The operations of a semaphore without a lock, each one indivisible step. */
  datatype Op = P | V

  predicate Legal(count: int, ops: seq<Op>)
    decreases |ops|
  {
    ops == [] || match ops[0]
      case P => count > 0 && Legal(count - 1, ops[1..])
      case V => Legal(count + 1, ops[1..])
  }

  function Tally(ops: seq<Op>, op: Op): nat {
    if ops == [] then 0 else Tally(ops[1..], op) + if ops[0] == op then 1 else 0
  }

  /** The stores of `count`, as the operations they complete. */
  function Effect(s: State, e: Event): seq<Op>
    requires Enabled(s, e)
  {
    if e.Run? && s.pcs[e.thread].WaitStore? then [P]
    else if e.Run? && s.pcs[e.thread].SignalStore? then [V]
    else []
  }

  function Effects(s: State, es: seq<Event>): seq<Op>
    requires IsRun(s, es)
    decreases |es|
  {
    if es == [] then [] else Effect(s, es[0]) + Effects(Step(s, es[0]), es[1..])
  }

  // ----------------------------------------------------------------- invariant

  datatype Holder = Nobody | Thread(id: nat)

  /** What the thread inside the mutex knows about the shared count. */
  ghost predicate Knows(s: State, pc: Pc) {
    && (pc.WaitLoad? ==> s.count > 0)
    && (pc.WaitStore? ==> pc.seen == s.count > 0)
    && (pc.SignalStore? ==> pc.seen == s.count)
  }

  /** h is the one thread inside; the flag is set exactly when there is one. */
  ghost predicate Held(s: State, h: Holder) {
    && (h.Thread? ==> h.id < |s.pcs|)
    && (s.flag <==> h.Thread?)
    && (forall i :: 0 <= i < |s.pcs| ==> (Inside(s.pcs[i]) <==> h == Thread(i)))
    && (h.Thread? ==> Knows(s, s.pcs[h.id]))
  }

  function NextHolder(s: State, e: Event, h: Holder): Holder
    requires Enabled(s, e)
  {
    if Inside(Step(s, e).pcs[e.thread]) then Thread(e.thread)
    else if Inside(s.pcs[e.thread]) then Nobody
    else h
  }

  /** Every step of every thread keeps the invariant. */
  lemma {:induction false} StepHeld(s: State, e: Event, h: Holder)
    requires Enabled(s, e) && Held(s, h)
    ensures Held(Step(s, e), NextHolder(s, e, h))
  {
  }

  /** A store is one step of the atomic semaphore, every other step none. */
  lemma {:induction false} StepEffect(s: State, e: Event, h: Holder)
    requires Enabled(s, e) && Held(s, h)
    ensures Effect(s, e) == [] ==> Step(s, e).count == s.count
    ensures Effect(s, e) == [P] ==> s.count > 0 && Step(s, e).count == s.count - 1
    ensures Effect(s, e) == [V] ==> Step(s, e).count == s.count + 1
  {
  }

  // -------------------------------------------------------------- over all runs

  /** In every run from semaphore_init at most one thread is inside, and the flag tells whether one is. */
  lemma {:induction false} MutualExclusion(count: int, threads: nat, es: seq<Event>)
    requires IsRun(Initial(count, threads), es)
    ensures var s := After(Initial(count, threads), es);
            && (forall i, j :: 0 <= i < |s.pcs| && 0 <= j < |s.pcs| && Inside(s.pcs[i]) && Inside(s.pcs[j]) ==> i == j)
            && (s.flag <==> exists i :: 0 <= i < |s.pcs| && Inside(s.pcs[i]))
  {
    var k := RunReturns(Initial(count, threads), es, Nobody);
    var s := After(Initial(count, threads), es);
    if k.Thread? { assert Inside(s.pcs[k.id]); }
  }

  /** Every run takes effect as a legal run of the atomic semaphore, in the order of the stores. */
  lemma {:induction false} RunRefines(s: State, es: seq<Event>, h: Holder)
    requires IsRun(s, es) && Held(s, h)
    ensures Legal(s.count, Effects(s, es))
    ensures After(s, es).count == s.count + Tally(Effects(s, es), V) - Tally(Effects(s, es), P)
    decreases |es|
  {
    if es != [] {
      var e, n := es[0], Step(s, es[0]);
      StepHeld(s, e, h);
      StepEffect(s, e, h);
      RunRefines(n, es[1..], NextHolder(s, e, h));
      var rest := Effects(n, es[1..]);
      if Effect(s, e) == [] {
        assert [] + rest == rest;
      } else {
        var op := Effect(s, e)[0];
        assert ([op] + rest)[1..] == rest;
      }
    }
  }

  /** The stores whose call has not returned yet: at most the one of the thread inside. */
  function Unreturned(s: State, h: Holder, op: Op): nat
    requires h.Thread? ==> h.id < |s.pcs|
  {
    if h.Thread? && (if op == P then s.pcs[h.id].WaitUnlock? else s.pcs[h.id].SignalUnlock?) then 1 else 0
  }

  lemma {:induction false} StepReturns(s: State, e: Event, h: Holder)
    requires Enabled(s, e) && Held(s, h)
    ensures var n, k := Step(s, e), NextHolder(s, e, h);
            && Held(n, k)
            && n.waits + Unreturned(n, k, P) == s.waits + Unreturned(s, h, P) + Tally(Effect(s, e), P)
            && n.signals + Unreturned(n, k, V) == s.signals + Unreturned(s, h, V) + Tally(Effect(s, e), V)
            && (s.count >= Unreturned(s, h, V) ==> n.count >= Unreturned(n, k, V))
  {
    StepHeld(s, e, h);
  }

  lemma {:induction false} TallyConcat(a: seq<Op>, b: seq<Op>, op: Op)
    requires |a| <= 1
    ensures Tally(a + b, op) == Tally(a, op) + Tally(b, op)
  {
    if a == [] { assert a + b == b; } else { assert (a + b)[1..] == b; }
  }

  lemma {:induction false} RunReturns(s: State, es: seq<Event>, h: Holder) returns (k: Holder)
    requires IsRun(s, es) && Held(s, h)
    ensures Held(After(s, es), k)
    ensures After(s, es).waits + Unreturned(After(s, es), k, P)
      == s.waits + Unreturned(s, h, P) + Tally(Effects(s, es), P)
    ensures After(s, es).signals + Unreturned(After(s, es), k, V)
      == s.signals + Unreturned(s, h, V) + Tally(Effects(s, es), V)
    ensures s.count >= Unreturned(s, h, V) ==> After(s, es).count >= Unreturned(After(s, es), k, V)
    decreases |es|
  {
    k := h;
    if es != [] {
      StepReturns(s, es[0], h);
      k := RunReturns(Step(s, es[0]), es[1..], NextHolder(s, es[0], h));
      TallyConcat(Effect(s, es[0]), Effects(Step(s, es[0]), es[1..]), P);
      TallyConcat(Effect(s, es[0]), Effects(Step(s, es[0]), es[1..]), V);
    }
  }

  /** In every run from semaphore_init the stores form a legal run of the atomic semaphore; when the mutex is
      free every store belongs to a call that has returned. */
  lemma {:induction false} Linearizable(count: int, threads: nat, es: seq<Event>)
    requires IsRun(Initial(count, threads), es)
    ensures var s, ops := After(Initial(count, threads), es), Effects(Initial(count, threads), es);
            && Legal(count, ops) && s.count == count + Tally(ops, V) - Tally(ops, P)
            && s.waits <= Tally(ops, P) <= s.waits + 1 && s.signals <= Tally(ops, V) <= s.signals + 1
            && (!s.flag ==> s.waits == Tally(ops, P) && s.signals == Tally(ops, V))
  {
    RunRefines(Initial(count, threads), es, Nobody);
    var k := RunReturns(Initial(count, threads), es, Nobody);
  }

  /** Whenever the mutex is free, count == initial + completed signals - completed waits. */
  lemma {:induction false} FreeMeansBalanced(count: int, threads: nat, es: seq<Event>)
    requires IsRun(Initial(count, threads), es) && !After(Initial(count, threads), es).flag
    ensures var s := After(Initial(count, threads), es); s.count == count + s.signals - s.waits
  {
    Linearizable(count, threads, es);
  }

  /** A legal run of the atomic semaphore never takes the count below zero, nor lower than it started. */
  lemma {:induction false} LegalStaysNonNegative(count: int, ops: seq<Op>)
    requires Legal(count, ops)
    ensures count + Tally(ops, V) - Tally(ops, P) >= if count < 0 then count else 0
    decreases |ops|
  {
    if ops != [] {
      LegalStaysNonNegative(if ops[0] == P then count - 1 else count + 1, ops[1..]);
    }
  }

  /** From a non-negative start the count is never negative, also while a thread is inside. */
  lemma {:induction false} NeverNegative(count: int, threads: nat, es: seq<Event>)
    requires 0 <= count && IsRun(Initial(count, threads), es)
    ensures 0 <= After(Initial(count, threads), es).count
  {
    Linearizable(count, threads, es);
    LegalStaysNonNegative(count, Effects(Initial(count, threads), es));
  }

  /** In every state completed waits are covered by the initial count and the completed signals. */
  lemma {:induction false} WaitsAreCovered(count: int, threads: nat, es: seq<Event>)
    requires 0 <= count && IsRun(Initial(count, threads), es)
    ensures var s := After(Initial(count, threads), es); s.waits <= count + s.signals
  {
    RunRefines(Initial(count, threads), es, Nobody);
    var k := RunReturns(Initial(count, threads), es, Nobody);
  }

  // --------------------------------------------------------------------- calls

  /** How often an operation was called in a run. */
  function Called(es: seq<Event>, op: Op): nat {
    if es == [] then 0
    else Called(es[1..], op) + if (if op == P then es[0].CallWait? else es[0].CallSignal?) then 1 else 0
  }

  /** The thread is in the code of the operation. */
  predicate Within(pc: Pc, op: Op) {
    if op == P then pc.WaitLock? || pc.WaitTest? || pc.WaitYield? || pc.WaitLoad? || pc.WaitStore? || pc.WaitUnlock?
    else pc.SignalLock? || pc.SignalLoad? || pc.SignalStore? || pc.SignalUnlock?
  }

  function CountWithin(pcs: seq<Pc>, op: Op): nat {
    if pcs == [] then 0 else CountWithin(pcs[..|pcs| - 1], op) + if Within(pcs[|pcs| - 1], op) then 1 else 0
  }

  lemma {:induction false} CountUpdate(pcs: seq<Pc>, t: nat, pc: Pc, op: Op)
    requires t < |pcs|
    ensures CountWithin(pcs[t := pc], op) + (if Within(pcs[t], op) then 1 else 0)
         == CountWithin(pcs, op) + if Within(pc, op) then 1 else 0
    decreases |pcs|
  {
    var n := |pcs| - 1;
    if t == n {
      assert pcs[t := pc][..n] == pcs[..n];
    } else {
      assert pcs[t := pc][..n] == pcs[..n][t := pc];
      CountUpdate(pcs[..n], t, pc, op);
    }
  }

  lemma {:induction false} CountIdle(pcs: seq<Pc>, op: Op)
    requires forall i :: 0 <= i < |pcs| ==> pcs[i].Idle?
    ensures CountWithin(pcs, op) == 0
    decreases |pcs|
  {
    if pcs != [] { CountIdle(pcs[..|pcs| - 1], op); }
  }

  /** Completed operations, in either kind. */
  function Completed(s: State, op: Op): nat {
    if op == P then s.waits else s.signals
  }

  lemma {:induction false} StepCalls(s: State, e: Event, op: Op)
    requires Enabled(s, e)
    ensures Completed(Step(s, e), op) + CountWithin(Step(s, e).pcs, op)
         == Completed(s, op) + CountWithin(s.pcs, op) + Called([e], op)
  {
    var t, n := e.thread, Step(s, e);
    assert Called([e], op) == if (if op == P then e.CallWait? else e.CallSignal?) then 1 else 0;
    OnlyOneMoves(s, e);
    CountUpdate(s.pcs, t, n.pcs[t], op);
  }

  lemma {:induction false} OnlyOneMoves(s: State, e: Event)
    requires Enabled(s, e)
    ensures |Step(s, e).pcs| == |s.pcs| && Step(s, e).pcs == s.pcs[e.thread := Step(s, e).pcs[e.thread]]
  {
  }

  lemma {:induction false} RunCalls(s: State, es: seq<Event>, op: Op)
    requires IsRun(s, es)
    ensures Completed(After(s, es), op) + CountWithin(After(s, es).pcs, op)
         == Completed(s, op) + CountWithin(s.pcs, op) + Called(es, op)
    decreases |es|
  {
    if es != [] {
      StepCalls(s, es[0], op);
      RunCalls(Step(s, es[0]), es[1..], op);
      assert [es[0]][1..] == [];
    }
  }

  /** In every run the calls of an operation are those that completed and those still under way. */
  lemma {:induction false} EveryCallCounts(count: int, threads: nat, es: seq<Event>, op: Op)
    requires IsRun(Initial(count, threads), es)
    ensures var s := After(Initial(count, threads), es);
            Called(es, op) == (if op == P then s.waits else s.signals) + CountWithin(s.pcs, op)
  {
    RunCalls(Initial(count, threads), es, op);
    CountIdle(Initial(count, threads).pcs, op);
  }

  /** With no call under way: count == initial + calls of semaphore_signal - calls of semaphore_wait. */
  lemma {:induction false} QuietMeansBalanced(count: int, threads: nat, es: seq<Event>)
    requires IsRun(Initial(count, threads), es)
    requires var s := After(Initial(count, threads), es); forall i :: 0 <= i < |s.pcs| ==> s.pcs[i].Idle?
    ensures After(Initial(count, threads), es).count == count + Called(es, V) - Called(es, P)
  {
    var s := After(Initial(count, threads), es);
    EveryCallCounts(count, threads, es, P);
    EveryCallCounts(count, threads, es, V);
    CountIdle(s.pcs, P);
    CountIdle(s.pcs, V);
    MutualExclusion(count, threads, es);
    FreeMeansBalanced(count, threads, es);
  }

  /** The operation a thread called last. */
  function LastCall(es: seq<Event>, t: nat): (last: seq<Op>)
    ensures |last| <= 1
  {
    if es == [] then []
    else
      var e := es[|es| - 1];
      if e == CallWait(t) then [P] else if e == CallSignal(t) then [V] else LastCall(es[..|es| - 1], t)
  }

  lemma {:induction false} AfterLast(s: State, es: seq<Event>)
    requires es != [] && IsRun(s, es)
    ensures var n := |es| - 1;
            && IsRun(s, es[..n]) && Enabled(After(s, es[..n]), es[n])
            && After(s, es) == Step(After(s, es[..n]), es[n])
    decreases |es|
  {
    var n := |es| - 1;
    if n > 0 {
      AfterLast(Step(s, es[0]), es[1..]);
      assert es[..n][1..] == es[1..][..n - 1];
    } else {
      assert es[..0] == [] && es[1..] == [];
    }
  }

  /** A thread is idle or in the code of the operation it called last. */
  lemma {:induction false} ThreadObeysCall(count: int, threads: nat, es: seq<Event>, t: nat)
    requires IsRun(Initial(count, threads), es) && t < threads
    ensures var s := After(Initial(count, threads), es);
            && |s.pcs| == threads
            && (s.pcs[t].Idle? || (LastCall(es, t) != [] && Within(s.pcs[t], LastCall(es, t)[0])))
    decreases |es|
  {
    if es != [] {
      var n := |es| - 1;
      AfterLast(Initial(count, threads), es);
      ThreadObeysCall(count, threads, es[..n], t);
    }
  }

  // ------------------------------------------------------------------ progress

  /** How many of its own steps a thread inside needs to leave the mutex. */
  function ToLeave(pc: Pc): nat {
    match pc
    case WaitTest => 4
    case WaitLoad => 3
    case WaitStore(_) => 2
    case WaitUnlock => 1
    case WaitYield => 1
    case SignalLoad => 3
    case SignalStore(_) => 2
    case SignalUnlock => 1
    case _ => 0
  }

  function Alone(t: nat, n: nat): seq<Event> {
    seq(n, i => Run(t))
  }

  /** The thread inside, run on its own, frees the mutex, within four steps. */
  lemma {:induction false} HolderLeaves(s: State, t: nat) returns (n: nat)
    requires Held(s, Thread(t))
    ensures n <= ToLeave(s.pcs[t]) <= 4 && IsRun(s, Alone(t, n)) && !After(s, Alone(t, n)).flag
    decreases ToLeave(s.pcs[t])
  {
    var next := Step(s, Run(t));
    StepHeld(s, Run(t), Thread(t));
    if Inside(next.pcs[t]) {
      var k := HolderLeaves(next, t);
      n := k + 1;
      assert Alone(t, n)[1..] == Alone(t, k);
    } else {
      n := 1;
      assert Alone(t, 1)[1..] == [];
    }
  }

  /** With the mutex free and the count positive, a waiting thread run on its own completes its wait in five steps. */
  lemma {:induction false} WaitCompletes(s: State, t: nat)
    requires Held(s, Nobody) && t < |s.pcs| && s.pcs[t].WaitLock? && s.count > 0
    ensures IsRun(s, Alone(t, 5))
    ensures var n := After(s, Alone(t, 5));
            n == State(false, s.count - 1, s.pcs[t := Idle], s.waits + 1, s.signals)
  {
    var a := Step(s, Run(t));
    var b := Step(a, Run(t));
    var c := Step(b, Run(t));
    var d := Step(c, Run(t));
    var e := Step(d, Run(t));
    UnfoldRun(e, t, 0);
    UnfoldRun(d, t, 1);
    UnfoldRun(c, t, 2);
    UnfoldRun(b, t, 3);
    UnfoldRun(a, t, 4);
    UnfoldRun(s, t, 5);
  }

  /** With the mutex free, a thread that calls semaphore_wait on a positive count returns after five own steps; */
  lemma {:induction false} WaitCallCompletes(s: State, t: nat)
    requires Held(s, Nobody) && t < |s.pcs| && s.pcs[t].Idle? && s.count > 0
    ensures Enabled(s, CallWait(t)) && IsRun(Step(s, CallWait(t)), Alone(t, 5))
    ensures After(Step(s, CallWait(t)), Alone(t, 5)) == s.(count := s.count - 1, waits := s.waits + 1)
  {
    var n := Step(s, CallWait(t));
    StepHeld(s, CallWait(t), Nobody);
    WaitCompletes(n, t);
    assert s.pcs[t := WaitLock][t := Idle] == s.pcs;
  }

  /** one that calls semaphore_signal returns after four. */
  lemma {:induction false} SignalCallCompletes(s: State, t: nat)
    requires Held(s, Nobody) && t < |s.pcs| && s.pcs[t].Idle?
    ensures Enabled(s, CallSignal(t)) && IsRun(Step(s, CallSignal(t)), Alone(t, 4))
    ensures After(Step(s, CallSignal(t)), Alone(t, 4)) == s.(count := s.count + 1, signals := s.signals + 1)
  {
    var n := Step(s, CallSignal(t));
    var a := Step(n, Run(t));
    var b := Step(a, Run(t));
    var c := Step(b, Run(t));
    var d := Step(c, Run(t));
    UnfoldRun(d, t, 0);
    UnfoldRun(c, t, 1);
    UnfoldRun(b, t, 2);
    UnfoldRun(a, t, 3);
    UnfoldRun(n, t, 4);
    assert d.pcs == s.pcs;
  }

  /** A thread in semaphore_wait that runs alone while the count is not positive never returns. */
  lemma {:induction false} WaitSpins(s: State, t: nat, n: nat)
    requires t < |s.pcs| && s.count <= 0
    requires s.pcs[t].WaitLock? || s.pcs[t].WaitTest? || s.pcs[t].WaitYield?
    ensures IsRun(s, Alone(t, n))
    ensures var r := After(s, Alone(t, n)); |r.pcs| == |s.pcs| && !r.pcs[t].Idle? && r.count == s.count
    decreases n
  {
    if n > 0 { WaitSpins(Step(s, Run(t)), t, n - 1); }
    UnfoldRun(s, t, n);
  }

  lemma {:induction false} UnfoldRun(s: State, t: nat, n: nat)
    requires n > 0 ==> Enabled(s, Run(t)) && IsRun(Step(s, Run(t)), Alone(t, n - 1))
    ensures IsRun(s, Alone(t, n))
    ensures After(s, Alone(t, n)) == if n == 0 then s else After(Step(s, Run(t)), Alone(t, n - 1))
  {
    if n > 0 { assert Alone(t, n)[1..] == Alone(t, n - 1); }
  }
}
