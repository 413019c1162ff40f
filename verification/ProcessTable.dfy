/**
 The kernel's process table: slots and pids, creation and deletion, and the
 scheduler that ages, queues and picks processes in place.
 */
module ProcessTable {
  import opened SchedulerFairness
  import opened Options

  const MAX_PROCESSES: nat := 256
  const NSIG: nat := 65
  const SIGKILL: nat := 9
  const SIGSTOP: nat := 19

  datatype Status = Ready | Running | UninterruptibleSleep | InterruptibleSleep | Zombie

  datatype Thread = Thread(status: Status, waiting: int, procMask: set<nat>, suspendMask: set<nat>, unsuspend: nat)

  datatype Proc = Proc(
    pid: int, ppid: int, nice: int, currentNice: int, lastScheduled: nat,
    threads: seq<Thread>, currentThread: nat, pending: set<nat>)

  // ------------------------------------------------------------ thread choice

  /** The least pending signal from i on that the thread's mask names. */
  function FirstAllowed(pending: set<nat>, mask: set<nat>, i: nat): (r: int)
    requires i <= NSIG
    ensures r == -1 || (i <= r < NSIG && r in pending && r in mask)
    ensures forall j :: i <= j < (if r == -1 then NSIG else r) ==> !(j in pending && j in mask)
    decreases NSIG - i
  {
    if i == NSIG then -1
    else if i in pending && i in mask then i
    else FirstAllowed(pending, mask, i + 1)
  }

  /** sched_sigsuspend_check: the signal that ends a sigsuspend, and the thread with that signal noted. */
  function SuspendCheck(t: Thread, pending: set<nat>): (int, Thread) {
    if t.suspendMask == {} then (-1, t)
    else if FirstAllowed(pending, t.procMask, 1) > 0 then (FirstAllowed(pending, t.procMask, 1), t)
    else if SIGKILL in pending then (SIGKILL, t.(unsuspend := SIGKILL))
    else if SIGSTOP in pending then (SIGSTOP, t.(unsuspend := SIGSTOP))
    else (-1, t)
  }

  predicate Blocked(t: Thread) {
    !(t.status in {Ready, Running}) || t.waiting == 1
  }

  predicate Eligible(t: Thread, pending: set<nat>) {
    !Blocked(t) || (t.status == InterruptibleSleep && SuspendCheck(t, pending).0 > 0)
  }

  /** The thread as it is left when picked. */
  function Picked(t: Thread, pending: set<nat>): Thread {
    if !Blocked(t) then t.(status := Running)
    else
      var (s, t1) := SuspendCheck(t, pending);
      if s == SIGKILL || s == SIGSTOP || s < 0 then t1.(status := Running)
      else t1.(status := Running, procMask := t.suspendMask, suspendMask := {}, unsuspend := s)
  }

  /** A thread can be picked exactly when it is runnable and not in waitpid, or a signal ends its sigsuspend. */
  lemma {:induction false} EligibleInFields(t: Thread, pending: set<nat>)
    ensures Eligible(t, pending) <==>
      || ((t.status == Ready || t.status == Running) && t.waiting != 1)
      || (t.status == InterruptibleSleep && t.suspendMask != {}
          && exists s :: 1 <= s <= 64 && s in pending && (s in t.procMask || s == 9 || s == 19))
  {
    var r := FirstAllowed(pending, t.procMask, 1);
    if t.status == InterruptibleSleep && t.suspendMask != {} && r <= 0 {
      assert forall j :: 1 <= j < 65 ==> !(j in pending && j in t.procMask);
    }
  }

  lemma {:induction false} ThreadsInFields(p: Proc)
    ensures forall i :: 0 <= i < |p.threads| ==>
      var t := p.threads[i];
      (Eligible(t, p.pending) <==>
         || ((t.status == Ready || t.status == Running) && t.waiting != 1)
         || (t.status == InterruptibleSleep && t.suspendMask != {}
             && exists s :: 1 <= s <= 64 && s in p.pending && (s in t.procMask || s == 9 || s == 19)))
  {
    forall i | 0 <= i < |p.threads| {
      EligibleInFields(p.threads[i], p.pending);
    }
  }

  /** What picking does to a runnable thread, */
  lemma {:induction false} PickedRunnable(t: Thread, pending: set<nat>)
    requires (t.status == Ready || t.status == Running) && t.waiting != 1
    ensures Picked(t, pending) == t.(status := Running)
  {
  }

  /**
   and to one in sigsuspend: the least pending signal that the mask names ends
   it and swaps the masks, except for SIGKILL and SIGSTOP, which leave them.
   */
  lemma {:induction false} PickedSuspended(t: Thread, pending: set<nat>, s: nat)
    requires t.status == InterruptibleSleep && t.suspendMask != {} && 1 <= s <= 64
    requires forall j :: 1 <= j < s ==> !(j in pending && j in t.procMask)
    ensures s in pending && s in t.procMask && s != 9 && s != 19 ==>
      Picked(t, pending) == t.(status := Running, procMask := t.suspendMask, suspendMask := {}, unsuspend := s)
    ensures s in pending && s in t.procMask && (s == 9 || s == 19) ==> Picked(t, pending) == t.(status := Running)
    ensures s == 64 && !(64 in pending && 64 in t.procMask) && 9 in pending ==>
      Picked(t, pending) == t.(status := Running, unsuspend := 9)
    ensures s == 64 && !(64 in pending && 64 in t.procMask) && 9 !in pending && 19 in pending ==>
      Picked(t, pending) == t.(status := Running, unsuspend := 19)
  {
    var r := FirstAllowed(pending, t.procMask, 1);
    if s in pending && s in t.procMask { assert r == s; }
  }

  ghost predicate ThreadsOk(p: Proc) {
    p.currentThread < |p.threads|
  }

  /** sched_thread succeeds: some thread other than the current one is eligible, or the only thread is. */
  predicate CanRun(p: Proc) {
    exists i :: 0 <= i < |p.threads| && (i != p.currentThread || |p.threads| == 1) && Eligible(p.threads[i], p.pending)
  }

  /** i comes before j when the threads are visited cyclically after the current one. */
  predicate Sooner(p: Proc, i: nat, j: nat) {
    var c := p.currentThread;
    if i > c then j > i || j <= c else c >= j > i
  }

  /** c is the first eligible thread after the current one, cyclically. */
  ghost predicate ThreadChoice(p: Proc, c: nat) {
    && c < |p.threads| && (c != p.currentThread || |p.threads| == 1) && Eligible(p.threads[c], p.pending)
    && forall i: nat :: i < |p.threads| && i != p.currentThread && Sooner(p, i, c) ==>
      !Eligible(p.threads[i], p.pending)
  }

  /** How many places after the current thread, cyclically. */
  function Places(p: Proc, i: nat): (k: int)
    ensures i != p.currentThread && i < |p.threads| && p.currentThread < |p.threads| ==>
      0 < k < |p.threads| && (p.currentThread + k == i || p.currentThread + k == i + |p.threads|)
  {
    if i > p.currentThread then i - p.currentThread else i + |p.threads| - p.currentThread
  }

  lemma {:induction false} VisitOrder(p: Proc)
    requires ThreadsOk(p)
    ensures forall i: nat, j: nat :: i < |p.threads| && j < |p.threads| && i != p.currentThread ==>
      (Sooner(p, i, j) <==> Places(p, i) < Places(p, j))
  {
  }

  function SwitchTo(p: Proc, c: nat): Proc
    requires c < |p.threads|
  {
    p.(currentThread := c, threads := p.threads[c := Picked(p.threads[c], p.pending)])
  }

  /** q is p after it was dispatched at tick `now`. */
  ghost predicate Dispatched(p: Proc, q: Proc, now: nat) {
    ThreadChoice(p, q.currentThread) && q == SwitchTo(p, q.currentThread).(lastScheduled := now, currentNice := p.nice)
  }

  /** sched_thread: the first eligible thread after the current one, cyclically. */
  method SchedThread(p: Proc) returns (ok: bool, q: Proc)
    requires ThreadsOk(p)
    ensures ok <==> CanRun(p)
    ensures !ok ==> q == p
    ensures ok ==> ThreadChoice(p, q.currentThread) && q == SwitchTo(p, q.currentThread)
    // In the fields of the threads: the one picked was runnable or woken by a signal, and runs now;
    ensures ok ==>
      var c, t := q.currentThread, p.threads[q.currentThread];
      && |q.threads| == |p.threads| && q == p.(currentThread := c, threads := q.threads)
      && q.threads[c].status == Running && q.threads[c].waiting == t.waiting
      && (forall i :: 0 <= i < |p.threads| && i != c ==> q.threads[i] == p.threads[i])
      && (|| ((t.status == Ready || t.status == Running) && t.waiting != 1)
          || (t.status == InterruptibleSleep && t.suspendMask != {}
              && exists s :: 1 <= s <= 64 && s in p.pending && (s in t.procMask || s == 9 || s == 19)))
    // every thread visited before it, or every thread visited in vain, was neither.
    ensures forall i :: 0 <= i < |p.threads| && (i != p.currentThread || |p.threads| == 1)
                        && (ok ==> Places(p, i) < Places(p, q.currentThread)) ==>
      var t := p.threads[i];
      && !((t.status == Ready || t.status == Running) && t.waiting != 1)
      && !(t.status == InterruptibleSleep && t.suspendMask != {}
           && exists s :: 1 <= s <= 64 && s in p.pending && (s in t.procMask || s == 9 || s == 19))
  {
    ThreadsInFields(p);
    VisitOrder(p);
    var n := |p.threads|;
    var idx := p.currentThread + 1;
    if idx >= n {
      idx := 0;
    }
    while !Eligible(p.threads[idx], p.pending)
      invariant 0 <= idx < n
      invariant idx != p.currentThread || n == 1
      invariant forall i: nat :: i < n && i != p.currentThread && i != idx && Sooner(p, i, idx) ==>
        !Eligible(p.threads[i], p.pending)
      decreases if idx > p.currentThread then n + n - idx else n - idx
    {
      idx := idx + 1;
      if idx >= n {
        idx := 0;
      }
      if idx == p.currentThread {
        return false, p;
      }
    }
    q := p.(currentThread := idx, threads := p.threads[idx := Picked(p.threads[idx], p.pending)]);
    ok := true;
  }

  /** A process with an eligible thread is passed over exactly when that is the current one of several. */
  lemma {:induction false} PassedOverExactly(p: Proc)
    requires ThreadsOk(p)
    ensures (exists i :: 0 <= i < |p.threads| && Eligible(p.threads[i], p.pending)) && !CanRun(p)
      <==> |p.threads| > 1 && Eligible(p.threads[p.currentThread], p.pending)
           && forall i :: 0 <= i < |p.threads| && i != p.currentThread ==> !Eligible(p.threads[i], p.pending)
  {
  }

  /** A running thread beside a sleeping one: sched_thread finds none. */
  lemma {:induction false} RunningThreadPassedOver(p: Proc)
    requires p.threads == [Thread(Running, 0, {}, {}, 0), Thread(UninterruptibleSleep, 0, {}, {}, 0)]
      && p.currentThread == 0
    ensures Eligible(p.threads[0], p.pending) && !CanRun(p)
  {
  }

  // -------------------------------------------------------------- slots, pids

  predicate Live(p: Proc) {
    p.pid != -1
  }

  function LiveCount(ps: seq<Proc>): nat {
    if ps == [] then 0 else LiveCount(ps[..|ps| - 1]) + (if Live(ps[|ps| - 1]) then 1 else 0)
  }

  ghost predicate PidsDistinct(ps: seq<Proc>) {
    forall i, j :: 0 <= i < j < |ps| && Live(ps[i]) && Live(ps[j]) ==> ps[i].pid != ps[j].pid
  }

  ghost predicate PidUsed(ps: seq<Proc>, pid: int) {
    exists i :: 0 <= i < |ps| && ps[i].pid == pid
  }

  ghost function UsedPids(ps: seq<Proc>): set<int> {
    set i | 0 <= i < |ps| && Live(ps[i]) :: ps[i].pid
  }

  /** Changing one slot changes the live count by at most that slot. */
  lemma {:induction false} LiveCountUpdate(ps: seq<Proc>, i: nat, p: Proc)
    requires i < |ps|
    ensures LiveCount(ps[i := p]) == LiveCount(ps) - (if Live(ps[i]) then 1 else 0) + (if Live(p) then 1 else 0)
    decreases |ps|
  {
    var n := |ps| - 1;
    if i == n {
      assert ps[i := p][..n] == ps[..n];
    } else {
      assert ps[i := p][..n] == ps[..n][i := p];
      LiveCountUpdate(ps[..n], i, p);
    }
  }

  lemma {:induction false} LiveCountBounds(ps: seq<Proc>)
    ensures LiveCount(ps) <= |ps|
    ensures LiveCount(ps) == |ps| ==> forall i :: 0 <= i < |ps| ==> Live(ps[i])
    ensures (forall i :: 0 <= i < |ps| ==> !Live(ps[i])) ==> LiveCount(ps) == 0
    decreases |ps|
  {
    if ps != [] { LiveCountBounds(ps[..|ps| - 1]); }
  }

  /** At most one pid per live slot. */
  lemma {:induction false} UsedPidsBound(ps: seq<Proc>)
    ensures |UsedPids(ps)| <= LiveCount(ps)
    decreases |ps|
  {
    if ps == [] {
      assert UsedPids(ps) == {};
    } else {
      var n := |ps| - 1;
      UsedPidsBound(ps[..n]);
      if Live(ps[n]) {
        assert UsedPids(ps) <= UsedPids(ps[..n]) + {ps[n].pid};
        SubsetSize(UsedPids(ps), UsedPids(ps[..n]) + {ps[n].pid});
      } else {
        assert UsedPids(ps) <= UsedPids(ps[..n]);
        SubsetSize(UsedPids(ps), UsedPids(ps[..n]));
      }
    }
  }

  ghost function Interval(lo: int, hi: int): (s: set<int>)
    requires lo <= hi
    ensures |s| == hi - lo && forall x :: x in s <==> lo <= x < hi
    decreases hi - lo
  {
    if lo == hi then {} else Interval(lo, hi - 1) + {hi - 1}
  }

  /** If every pid in [lo, MAX_PROCESSES) is taken, that many slots are live. */
  lemma {:induction false} Pigeonhole(ps: seq<Proc>, lo: int)
    requires 0 <= lo <= MAX_PROCESSES
    requires forall pid :: lo <= pid < MAX_PROCESSES ==> PidUsed(ps, pid)
    ensures LiveCount(ps) >= MAX_PROCESSES - lo
  {
    UsedPidsBound(ps);
    forall pid | pid in Interval(lo, MAX_PROCESSES)
      ensures pid in UsedPids(ps)
    {
      assert PidUsed(ps, pid);
    }
    SubsetSize(Interval(lo, MAX_PROCESSES), UsedPids(ps));
  }

  // ---------------------------------------------------------- priority queues

  ghost predicate Slots(s: seq<nat>, n: nat) {
    forall a :: 0 <= a < |s| ==> s[a] < n
  }

  /** Queue insertion before the first entry that was not scheduled earlier. */
  function Insert(s: seq<nat>, ps: seq<Proc>, task: nat): (r: seq<nat>)
    requires task < |ps| && Slots(s, |ps|)
    ensures |r| == |s| + 1 && Slots(r, |ps|)
    ensures forall x :: x in r <==> x == task || x in s
  {
    if s == [] || ps[s[0]].lastScheduled >= ps[task].lastScheduled then
      [task] + s
    else
      assert s == [s[0]] + s[1..];
      [s[0]] + Insert(s[1..], ps, task)
  }

  /** a goes before b in a row: scheduled earlier, or at the same tick and in a higher slot. */
  predicate Ahead(ps: seq<Proc>, a: nat, b: nat)
    requires a < |ps| && b < |ps|
  {
    ps[a].lastScheduled < ps[b].lastScheduled || (ps[a].lastScheduled == ps[b].lastScheduled && a > b)
  }

  ghost predicate SortedRow(s: seq<nat>, ps: seq<Proc>) {
    && Slots(s, |ps|)
    && forall a, b :: 0 <= a < b < |s| ==> Ahead(ps, s[a], s[b])
  }

  /** Insert splits the row where the entries scheduled strictly earlier end. */
  lemma {:induction false} InsertPoint(s: seq<nat>, ps: seq<Proc>, task: nat) returns (i: nat)
    requires task < |ps| && Slots(s, |ps|)
    ensures i <= |s| && Insert(s, ps, task) == s[..i] + [task] + s[i..]
    ensures forall j :: 0 <= j < i ==> ps[s[j]].lastScheduled < ps[task].lastScheduled
    ensures i == |s| || ps[s[i]].lastScheduled >= ps[task].lastScheduled
  {
    i := 0;
    while i < |s| && ps[s[i]].lastScheduled < ps[task].lastScheduled
      invariant 0 <= i <= |s|
      invariant forall j :: 0 <= j < i ==> ps[s[j]].lastScheduled < ps[task].lastScheduled
    {
      i := i + 1;
    }
    InsertAt(s, ps, task, i);
  }

  lemma {:induction false} InsertSorted(s: seq<nat>, ps: seq<Proc>, task: nat)
    requires SortedRow(s, ps) && task < |ps| && Slots(s, task)
    ensures SortedRow(Insert(s, ps, task), ps)
  {
    var i := InsertPoint(s, ps, task);
    forall b | i <= b < |s|
      ensures Ahead(ps, task, s[b])
    {
      if b > i { assert Ahead(ps, s[i], s[b]); }
    }
    var r := s[..i] + [task] + s[i..];
    forall a, b | 0 <= a < b < |r|
      ensures Ahead(ps, r[a], r[b])
    {
      assert r[a] == if a < i then s[a] else if a == i then task else s[a - 1];
      assert r[b] == if b < i then s[b] else if b == i then task else s[b - 1];
    }
  }

  /** Where Insert puts a process: after exactly the entries scheduled strictly earlier at the front. */
  lemma {:induction false} InsertAt(s: seq<nat>, ps: seq<Proc>, task: nat, i: nat)
    requires task < |ps| && i <= |s| && Slots(s, |ps|)
    requires forall j :: 0 <= j < i ==> ps[s[j]].lastScheduled < ps[task].lastScheduled
    requires i == |s| || ps[s[i]].lastScheduled >= ps[task].lastScheduled
    ensures Insert(s, ps, task) == s[..i] + [task] + s[i..]
    decreases i
  {
    if i > 0 {
      InsertAt(s[1..], ps, task, i - 1);
      assert s[..i] == [s[0]] + s[1..][..i - 1];
    }
  }

  /** The row of priority r after the first i slots: live slots whose aged nice value is r. */
  function Row(ps: seq<Proc>, i: nat, r: int): (s: seq<nat>)
    requires i <= |ps|
    ensures Slots(s, i)
    ensures forall x: nat {:trigger x in s} :: x in s <==> x < i && Live(ps[x]) && AgedNice(ps[x].currentNice) == r
    ensures |s| <= LiveCount(ps[..i])
  {
    if i == 0 then []
    else
      assert ps[..i][..i - 1] == ps[..i - 1];
      var s := Row(ps, i - 1, r);
      if Live(ps[i - 1]) && AgedNice(ps[i - 1].currentNice) == r then
        var t := Insert(s, ps, i - 1);
        assert forall a :: 0 <= a < |t| ==> t[a] in t;
        t
      else s
  }

  lemma {:induction false} RowSorted(ps: seq<Proc>, i: nat, r: int)
    requires i <= |ps|
    ensures SortedRow(Row(ps, i, r), ps)
    decreases i
  {
    if i > 0 {
      RowSorted(ps, i - 1, r);
      var s := Row(ps, i - 1, r);
      if Live(ps[i - 1]) && AgedNice(ps[i - 1].currentNice) == r {
        InsertSorted(s, ps, i - 1);
        assert Row(ps, i, r) == Insert(s, ps, i - 1);
      } else {
        assert Row(ps, i, r) == s;
      }
    }
  }

  /** Moves row[i..size] up by one place. */
  method ShiftUp(row: array<nat>, i: nat, size: nat)
    requires i <= size < row.Length
    modifies row
    ensures forall a :: 0 <= a < row.Length && !(i < a <= size) ==> row[a] == old(row[a])
    ensures forall a :: i < a <= size ==> row[a] == old(row[a - 1])
  {
    var j := size;
    while j > i
      invariant i <= j <= size
      invariant forall a :: 0 <= a < row.Length && !(j < a <= size) ==> row[a] == old(row[a])
      invariant forall a :: j < a <= size ==> row[a] == old(row[a - 1])
    {
      row[j] := row[j - 1];
      j := j - 1;
    }
  }

  /** insert_in_prio_queue: shift the tail of a row by one and drop the new entry into the gap. */
  method InsertInPrioQueue(row: array<nat>, size: nat, ps: seq<Proc>, task: nat) returns (newSize: nat)
    requires size < row.Length && task < |ps| && Slots(row[..size], |ps|)
    modifies row
    ensures newSize == size + 1
    ensures row[..newSize] == Insert(old(row[..size]), ps, task)
  {
    ghost var s := row[..size];
    var i := 0;
    assert forall a :: 0 <= a < size ==> row[a] == s[a];
    while i < size && ps[row[i]].lastScheduled < ps[task].lastScheduled
      invariant 0 <= i <= size
      invariant forall j :: 0 <= j < i ==> ps[s[j]].lastScheduled < ps[task].lastScheduled
    {
      i := i + 1;
    }
    InsertAt(s, ps, task, i);
    ShiftUp(row, i, size);
    row[i] := task;
    assert row[..size + 1] == s[..i] + [task] + s[i..];
    newSize := size + 1;
  }

  // -------------------------------------------------------------------- views

  /** The scheduling fields of the live slots. */
  function ViewOf(ps: seq<Proc>): View {
    map i: nat | i < |ps| && Live(ps[i]) :: Entry(ps[i].nice, ps[i].currentNice, ps[i].lastScheduled)
  }

  function ReadySlots(ps: seq<Proc>): set<nat> {
    set i: nat | i < |ps| && Live(ps[i]) && CanRun(ps[i])
  }

  function Aged(p: Proc): Proc {
    if Live(p) then p.(currentNice := AgedNice(p.currentNice)) else p
  }

  /** The first runnable entry of the first row that has one is the scheduler's choice. */
  lemma {:induction false} FirstIsChosen(ps: seq<Proc>, r: nat, j: nat)
    requires r < PRIORITIES && j < |Row(ps, |ps|, r)| && CanRun(ps[Row(ps, |ps|, r)[j]])
    requires forall r': nat, x: nat :: r' < r && x in Row(ps, |ps|, r') ==> !CanRun(ps[x])
    requires forall a :: 0 <= a < j ==> !CanRun(ps[Row(ps, |ps|, r)[a]])
    ensures Chosen(ViewOf(ps), ReadySlots(ps), Row(ps, |ps|, r)[j])
  {
    var row, v := Row(ps, |ps|, r), ViewOf(ps);
    var c := row[j];
    assert c in row;
    RowSorted(ps, |ps|, r);
    forall q | q in v && q in ReadySlots(ps) && q != c
      ensures Before(v, c, q)
    {
      var n := AgedNice(ps[q].currentNice);
      assert q in Row(ps, |ps|, n);
      if n == r {
        var b :| 0 <= b < |row| && row[b] == q;
        assert b > j;
      }
    }
  }

  lemma {:induction false} LiveCountPrefix(ps: seq<Proc>, i: nat)
    requires i <= |ps|
    ensures LiveCount(ps[..i]) <= LiveCount(ps)
    decreases |ps|
  {
    if i < |ps| {
      LiveCountPrefix(ps[..|ps| - 1], i);
      assert ps[..|ps| - 1][..i] == ps[..i];
    } else {
      assert ps[..i] == ps;
    }
  }

  lemma {:induction false} LiveCountSame(ps: seq<Proc>, qs: seq<Proc>)
    requires |ps| == |qs| && forall i :: 0 <= i < |ps| ==> Live(ps[i]) == Live(qs[i])
    ensures LiveCount(ps) == LiveCount(qs)
    decreases |ps|
  {
    if ps != [] { LiveCountSame(ps[..|ps| - 1], qs[..|qs| - 1]); }
  }

  /**
   One call of sched takes the table from ps to qs: the slot is chosen,
   switched and stamped, every other process aged.
   */
  ghost predicate SchedStep(ps: seq<Proc>, qs: seq<Proc>, slot: nat, now: nat) {
    && slot < |ps| == |qs|
    && Chosen(ViewOf(ps), ReadySlots(ps), slot)
    && ViewOf(qs) == Step(ViewOf(ps), slot, now)
    && Dispatched(ps[slot], qs[slot], now)
    && forall i :: 0 <= i < |ps| && i != slot ==> qs[i] == Aged(ps[i])
  }

  /**
   One call of sched in the fields of the processes: the chosen one gets its
   nice value and the tick, every other live one moves up one of the 20 rows.
   */
  lemma {:induction false} SchedStepInFields(ps: seq<Proc>, qs: seq<Proc>, slot: nat, now: nat)
    requires SchedStep(ps, qs, slot, now)
    ensures slot < |ps| == |qs| && ps[slot].pid != -1 && CanRun(ps[slot])
    ensures qs[slot] == ps[slot].(lastScheduled := now, currentNice := ps[slot].nice,
                                  currentThread := qs[slot].currentThread, threads := qs[slot].threads)
    ensures forall i :: 0 <= i < |ps| && i != slot ==>
      qs[i] == if ps[i].pid == -1 then ps[i]
               else ps[i].(currentNice := if ps[i].currentNice <= 1 then 0
                                          else if ps[i].currentNice >= 20 then 19
                                          else ps[i].currentNice - 1)
  {
    assert slot in ViewOf(ps) && slot in ReadySlots(ps);
  }

  /** The chosen process is the first by row, then by the tick it last ran at, then by the higher slot. */
  lemma {:induction false} ChosenInFields(ps: seq<Proc>, slot: nat, q: nat)
    requires Chosen(ViewOf(ps), ReadySlots(ps), slot) && q < |ps| && ps[q].pid != -1 && CanRun(ps[q]) && q != slot
    ensures slot < |ps|
    ensures var c, d := ps[slot].currentNice, ps[q].currentNice;
            var row, other := if c <= 1 then 0 else if c >= 20 then 19 else c - 1,
                              if d <= 1 then 0 else if d >= 20 then 19 else d - 1;
            || row < other
            || (row == other && ps[slot].lastScheduled < ps[q].lastScheduled)
            || (row == other && ps[slot].lastScheduled == ps[q].lastScheduled && slot > q)
  {
    var v := ViewOf(ps);
    assert q in v && q in ReadySlots(ps) && slot in v;
    assert Before(v, slot, q);
  }

  class Table {
    const procs: array<Proc>
    var processCount: nat
    var currentProcess: Option<nat>
    var postponeCounter: int
    var postponedFlag: bool
    ghost var deleted: nat

    ghost predicate Valid()
      reads this, procs
    {
      && procs.Length == MAX_PROCESSES
      && (forall i :: 0 <= i < procs.Length && Live(procs[i]) ==>
        0 <= procs[i].pid < MAX_PROCESSES && ThreadsOk(procs[i]))
      && PidsDistinct(procs[..])
      && LiveCount(procs[..]) + deleted == processCount <= MAX_PROCESSES
      && (deleted > 0 || PidUsed(procs[..], 0))
    }

    /** init_process: an empty table, then one process whose pid is forced to 0. */
    constructor (thread: Thread)
      ensures Valid() && fresh(procs)
      ensures processCount == 1 && deleted == 0 && currentProcess == Some(0) && postponeCounter == 0 && !postponedFlag
      ensures procs[0] == Proc(0, 0, 10, 10, 0, [thread], 0, {})
      ensures forall i :: 0 < i < MAX_PROCESSES ==> procs[i] == Proc(-1, 0, 0, 0, 0, [], 0, {})
    {
      var empty := Proc(-1, 0, 0, 0, 0, [], 0, {});
      var first := Proc(0, 0, 10, 10, 0, [thread], 0, {});
      procs := new Proc[MAX_PROCESSES](_ => empty);
      processCount, currentProcess, postponeCounter, postponedFlag, deleted := 1, Some(0), 0, false, 0;
      new;
      LiveCountBounds(procs[..]);
      LiveCountUpdate(procs[..], 0, first);
      ghost var before := procs[..];
      procs[0] := first;
      assert procs[..] == before[0 := first];
      assert procs[..][0].pid == 0;
    }

    /** get_free_process_slot */
    method GetFreeSlot() returns (r: Option<nat>)
      requires Valid()
      ensures r.Some? ==> r.value < MAX_PROCESSES && !Live(procs[r.value])
      ensures r.Some? ==> forall i :: 0 <= i < r.value ==> Live(procs[i])
      ensures r.None? ==> forall i :: 0 <= i < MAX_PROCESSES ==> Live(procs[i])
      ensures r.None? <==> LiveCount(procs[..]) == MAX_PROCESSES
    {
      LiveCountBounds(procs[..]);
      for i := 0 to MAX_PROCESSES
        invariant forall j :: 0 <= j < i ==> Live(procs[j])
      {
        if procs[i].pid == -1 {
          assert !Live(procs[..][i]);
          return Some(i);
        }
      }
      AllLiveCount(procs[..]);
      r := None;
    }

    /** get_next_pid: the least positive pid in no slot, or -1 when all of 1..255 are taken. */
    method GetNextPid() returns (npid: int)
      requires procs.Length == MAX_PROCESSES
      ensures npid == -1 || (0 < npid < MAX_PROCESSES && !PidUsed(procs[..], npid))
      ensures forall pid :: 0 < pid < (if npid == -1 then MAX_PROCESSES else npid) ==> PidUsed(procs[..], pid)
    {
      npid := 1;
      while npid < MAX_PROCESSES
        invariant 1 <= npid <= MAX_PROCESSES
        invariant forall pid :: 0 < pid < npid ==> PidUsed(procs[..], pid)
      {
        var found := false;
        for i := 0 to MAX_PROCESSES
          invariant !found && forall j :: 0 <= j < i ==> procs[j].pid != npid
        {
          if procs[i].pid == npid {
            found := true;
            assert procs[..][i].pid == npid;
            break;
          }
        }
        if !found {
          return npid;
        }
        npid := npid + 1;
      }
      npid := -1;
    }

    /**
     duplicate_process: refused (None) exactly when 256 processes have ever been
     created, since process_count is never decremented; otherwise the child gets
     a free slot and the least unused positive pid.
     */
    method Fork(parent: nat, thread: Thread) returns (r: Option<nat>)
      requires Valid() && parent < MAX_PROCESSES && Live(procs[parent])
      modifies this`processCount, procs
      ensures Valid()
      ensures r.None? <==> old(processCount) == MAX_PROCESSES
      ensures r.None? ==> procs[..] == old(procs[..]) && processCount == old(processCount)
      ensures r.Some? ==> processCount == old(processCount) + 1 && r.value < MAX_PROCESSES && !Live(old(procs[r.value]))
      ensures r.Some? ==> forall i :: 0 <= i < MAX_PROCESSES && i != r.value ==> procs[i] == old(procs[i])
      ensures r.Some? ==> var c := procs[r.value];
                0 < c.pid < MAX_PROCESSES && !PidUsed(old(procs[..]), c.pid)
                && (forall pid :: 0 < pid < c.pid ==> PidUsed(old(procs[..]), pid))
                && c == old(procs[parent]).(pid := c.pid, ppid := old(procs[parent].pid),
                                            currentNice := old(procs[parent].nice),
                                            threads := [thread], currentThread := 0)
    {
      if processCount >= MAX_PROCESSES {
        return None;
      }
      ghost var before := procs[..];
      LiveCountBounds(before);
      var slot := GetFreeSlot();
      var p := procs[parent];
      processCount := processCount + 1;
      var task := p.(threads := [thread], currentThread := 0);
      procs[slot.value] := task;
      assert procs[..] == before[slot.value := task];
      var pid := GetNextPid();
      CopyUsesSamePids(before, slot.value, parent, task);
      ghost var unused := UnusedPid(before);
      assert !PidUsed(procs[..], unused);
      var child := task.(pid := pid, currentNice := p.nice, ppid := p.pid);
      procs[slot.value] := child;
      assert procs[..] == before[slot.value := child];
      NewPid(before, slot.value, child);
      r := slot;
    }

    /** When a fork is admitted, the live processes cannot hold every positive pid. */
    lemma {:induction false} UnusedPid(ps: seq<Proc>) returns (pid: int)
      requires |ps| == MAX_PROCESSES && LiveCount(ps) + deleted < MAX_PROCESSES && (deleted > 0 || PidUsed(ps, 0))
      ensures 0 < pid < MAX_PROCESSES && !PidUsed(ps, pid)
    {
      if forall x :: 0 < x < MAX_PROCESSES ==> PidUsed(ps, x) {
        if deleted > 0 { Pigeonhole(ps, 1); } else { Pigeonhole(ps, 0); }
      }
      pid :| 0 < pid < MAX_PROCESSES && !PidUsed(ps, pid);
    }

    /** delete_process: frees the slot; process_count stays. */
    method Delete(slot: nat)
      requires Valid() && slot < MAX_PROCESSES && Live(procs[slot])
      modifies this`deleted, procs
      ensures Valid()
      ensures !Live(procs[slot]) && forall i :: 0 <= i < MAX_PROCESSES && i != slot ==> procs[i] == old(procs[i])
      ensures procs[slot] == Proc(-1, 0, 0, 0, 0, [], 0, {})
      ensures deleted == old(deleted) + 1
    {
      var empty := Proc(-1, 0, 0, 0, 0, [], 0, {});
      ghost var before := procs[..];
      LiveCountUpdate(before, slot, empty);
      procs[slot] := empty;
      assert procs[..] == before[slot := empty];
      deleted := deleted + 1;
    }

    /** The first loop of sched: age every live process and queue it by its aged nice value. */
    method BuildQueues() returns (rows: seq<array<nat>>, sizes: seq<nat>)
      requires Valid()
      modifies procs
      ensures forall i :: 0 <= i < MAX_PROCESSES ==> procs[i] == Aged(old(procs[i]))
      ensures forall r :: 0 <= r < |rows| ==> fresh(rows[r])
      ensures RowsHold(rows, sizes, old(procs[..]), MAX_PROCESSES, processCount)
    {
      var ps := procs[..];
      rows, sizes := NewRows(processCount, ps);
      for i := 0 to MAX_PROCESSES
        invariant forall j :: 0 <= j < MAX_PROCESSES ==> procs[j] == if j < i then Aged(ps[j]) else ps[j]
        invariant forall r :: 0 <= r < |rows| ==> fresh(rows[r])
        invariant RowsDistinct(rows) && RowsHold(rows, sizes, ps, i, processCount)
      {
        LiveCountPrefix(ps, i + 1);
        sizes := AgeAndQueue(i, rows, sizes, ps);
      }
    }

    /** One round of that loop; a free slot is passed over. */
    method AgeAndQueue(i: nat, rows: seq<array<nat>>, sizes: seq<nat>, ps: seq<Proc>) returns (newSizes: seq<nat>)
      requires i < |ps| == procs.Length && procs[i] == ps[i] && LiveCount(ps[..i + 1]) <= processCount
      requires RowsDistinct(rows) && RowsHold(rows, sizes, ps, i, processCount)
      modifies procs, rows
      ensures procs[i] == Aged(ps[i]) && forall j :: 0 <= j < procs.Length && j != i ==> procs[j] == old(procs[j])
      ensures RowsHold(rows, newSizes, ps, i + 1, processCount)
    {
      if procs[i].pid == -1 {
        RowsSkip(rows, sizes, ps, i, processCount);
        return sizes;
      }
      var nice := Age(procs[i].currentNice);
      procs[i] := procs[i].(currentNice := nice);
      newSizes := QueueSlot(rows, sizes, ps, i, nice, processCount);
    }

    /** One row of the second loop of sched: the first entry for which sched_thread succeeds. */
    method ScanRow(row: array<nat>, size: nat, ghost ps: seq<Proc>) returns (hit: Option<(nat, Proc)>)
      requires size <= row.Length && |ps| == procs.Length && Slots(row[..size], |ps|)
      requires forall j :: 0 <= j < |ps| ==> procs[j] == Aged(ps[j])
      requires forall j :: 0 <= j < size ==> Live(ps[row[..size][j]]) && ThreadsOk(ps[row[..size][j]])
      ensures hit.None? ==> forall j :: 0 <= j < size ==> !CanRun(ps[row[j]])
      ensures hit.Some? ==> hit.value.0 < size && CanRun(ps[row[hit.value.0]])
                            && forall j :: 0 <= j < hit.value.0 ==> !CanRun(ps[row[j]])
      ensures hit.Some? ==> Switched(ps[row[hit.value.0]], hit.value.1)
    {
      assert forall j :: 0 <= j < size ==> row[j] == row[..size][j];
      for j := 0 to size
        invariant forall a :: 0 <= a < j ==> !CanRun(ps[row[a]])
      {
        CanRunAged(ps[row[j]]);
        var ok, task := SchedThread(procs[row[j]]);
        if ok {
          return Some((j, task));
        }
      }
      hit := None;
    }

    /** The slot was chosen from ps, stamped and made current; every other process was aged and nothing else. */
    ghost predicate DispatchedTo(ps: seq<Proc>, slot: nat, now: nat)
      reads this, procs
    {
      currentProcess == Some(slot) && SchedStep(ps, procs[..], slot, now)
    }

    /** Row i of the second loop of sched, and the dispatch that ends it; ps is the table before aging. */
    method DispatchRow(i: nat, row: array<nat>, size: nat, now: nat, ghost ps: seq<Proc>) returns (r: Option<nat>)
      requires Valid() && |ps| == MAX_PROCESSES && forall k :: 0 <= k < |ps| ==> procs[k] == Aged(ps[k])
      requires i < PRIORITIES && size <= row.Length && row[..size] == Row(ps, |ps|, i)
      requires forall r': nat, x: nat :: r' < i && x in Row(ps, |ps|, r') ==> !CanRun(ps[x])
      modifies this`currentProcess, procs
      ensures Valid()
      ensures r.None? ==> procs[..] == old(procs[..]) && forall x: nat :: x in Row(ps, |ps|, i) ==> !CanRun(ps[x])
      ensures r.Some? ==> DispatchedTo(ps, r.value, now)
    {
      RowThreadsOk(ps, i);
      var hit := ScanRow(row, size, ps);
      if hit.None? {
        assert forall j :: 0 <= j < size ==> row[j] == row[..size][j];
        return None;
      }
      var (j, task) := hit.value;
      FirstIsChosen(ps, i, j);
      var slot := row[j];
      assert slot == row[..size][j];
      Stamp(slot, task, now, ps);
      r := Some(slot);
    }

    /** The second loop of sched over the filled queues; ps is the table before aging. */
    method Dispatch(rows: seq<array<nat>>, sizes: seq<nat>, now: nat, ghost ps: seq<Proc>) returns (r: Option<nat>)
      requires Valid() && |ps| == MAX_PROCESSES && RowsHold(rows, sizes, ps, MAX_PROCESSES, processCount)
      requires forall k :: 0 <= k < |ps| ==> procs[k] == Aged(ps[k])
      modifies this`currentProcess, procs
      ensures Valid()
      ensures r.None? ==> ReadySlots(ps) == {} && procs[..] == old(procs[..])
      ensures r.Some? ==> DispatchedTo(ps, r.value, now)
    {
      for i := 0 to PRIORITIES
        invariant Valid() && procs[..] == old(procs[..])
        invariant forall r': nat, x: nat :: r' < i && x in Row(ps, |ps|, r') ==> !CanRun(ps[x])
      {
        r := DispatchRow(i, rows[i], sizes[i], now, ps);
        if r.Some? {
          return;
        }
      }
      NothingReady(ps);
      r := None;
    }

    /** sched: the chosen slot, or None when the call is postponed or no process can run (a kernel panic). */
    method Sched(now: nat) returns (r: Option<nat>)
      requires Valid()
      modifies this`currentProcess, this`postponedFlag, procs
      ensures Valid()
      ensures old(postponeCounter) != 0 ==> r.None? && postponedFlag && procs[..] == old(procs[..])
                                            && currentProcess == old(currentProcess)
      ensures old(postponeCounter) == 0 ==> (r.None? <==> ReadySlots(old(procs[..])) == {})
      ensures r.Some? ==> DispatchedTo(old(procs[..]), r.value, now)
      ensures old(postponeCounter) == 0 && r.None? ==>
        forall i :: 0 <= i < MAX_PROCESSES ==> procs[i] == Aged(old(procs[i]))
    {
      if postponeCounter != 0 {
        postponedFlag := true;
        return None;
      }
      ghost var ps := procs[..];
      var rows, sizes := BuildQueues();
      SamePids(ps, procs[..]);
      r := Dispatch(rows, sizes, now, ps);
    }

    /** The end of sched: stamp the chosen process and restore its nice value. */
    method Stamp(slot: nat, task: Proc, now: nat, ghost ps: seq<Proc>)
      requires |ps| == procs.Length == MAX_PROCESSES && slot < |ps| && Live(ps[slot])
      requires forall i :: 0 <= i < |ps| ==> procs[i] == Aged(ps[i])
      requires Switched(ps[slot], task)
      requires Valid()
      modifies this`currentProcess, procs
      ensures Valid()
      ensures ViewOf(procs[..]) == Step(ViewOf(ps), slot, now) && currentProcess == Some(slot)
      ensures Dispatched(ps[slot], procs[slot], now)
      ensures forall i :: 0 <= i < |ps| && i != slot ==> procs[i] == Aged(ps[i])
    {
      ghost var aged := procs[..];
      var stamped := task.(lastScheduled := now, currentNice := task.nice);
      procs[slot] := stamped;
      assert procs[..] == aged[slot := stamped];
      SamePids(aged, procs[..]);
      StepView(ps, aged, slot, stamped, now);
      currentProcess := Some(slot);
    }
  }

  /** q is the aged p with another thread chosen. */
  ghost predicate Switched(p: Proc, q: Proc) {
    Live(p) && ThreadChoice(Aged(p), q.currentThread) && q == SwitchTo(Aged(p), q.currentThread)
  }

  ghost predicate RowsDistinct(rows: seq<array<nat>>) {
    forall a, b :: 0 <= a < b < |rows| ==> rows[a] != rows[b]
  }

  /** Row r of the queues holds the live slots below i with aged nice value r. */
  ghost predicate RowsHold(rows: seq<array<nat>>, sizes: seq<nat>, ps: seq<Proc>, i: nat, capacity: nat)
    requires i <= |ps|
    reads rows
  {
    && |rows| == |sizes| == PRIORITIES
    && forall r :: 0 <= r < PRIORITIES ==>
         rows[r].Length == capacity && sizes[r] <= capacity && rows[r][..sizes[r]] == Row(ps, i, r)
  }

  lemma {:induction false} RowsSkip(rows: seq<array<nat>>, sizes: seq<nat>, ps: seq<Proc>, i: nat, capacity: nat)
    requires i < |ps| && !Live(ps[i]) && RowsHold(rows, sizes, ps, i, capacity)
    ensures RowsHold(rows, sizes, ps, i + 1, capacity)
  {
  }

  /** One aging step as sched writes it: decrement, then clamp below and above. */
  method Age(currentNice: int) returns (nice: nat)
    ensures nice == AgedNice(currentNice)
  {
    var n := currentNice - 1;
    if n < 0 {
      n := 0;
    }
    if n > PRIORITIES - 1 {
      n := PRIORITIES - 1;
    }
    nice := n;
  }

  method NewRows(capacity: nat, ghost ps: seq<Proc>) returns (rows: seq<array<nat>>, sizes: seq<nat>)
    ensures (forall r :: 0 <= r < |rows| ==> fresh(rows[r])) && RowsDistinct(rows)
      && RowsHold(rows, sizes, ps, 0, capacity)
  {
    rows := [];
    sizes := seq(PRIORITIES, _ => 0);
    for r := 0 to PRIORITIES
      invariant |rows| == r && RowsDistinct(rows)
      invariant forall a :: 0 <= a < |rows| ==> fresh(rows[a]) && rows[a].Length == capacity
    {
      var row := new nat[capacity];
      rows := rows + [row];
    }
  }

  method QueueSlot(rows: seq<array<nat>>, sizes: seq<nat>, ps: seq<Proc>, i: nat, nice: nat, capacity: nat)
    returns (newSizes: seq<nat>)
    requires i < |ps| && Live(ps[i]) && nice == AgedNice(ps[i].currentNice)
    requires RowsDistinct(rows) && RowsHold(rows, sizes, ps, i, capacity) && LiveCount(ps[..i + 1]) <= capacity
    modifies rows
    ensures RowsHold(rows, newSizes, ps, i + 1, capacity)
  {
    assert |Row(ps, i + 1, nice)| == |Row(ps, i, nice)| + 1;
    var size := InsertInPrioQueue(rows[nice], sizes[nice], ps, i);
    newSizes := sizes[nice := size];
  }

  lemma {:induction false} RowThreadsOk(ps: seq<Proc>, r: int)
    requires forall i :: 0 <= i < |ps| && Live(ps[i]) ==> ThreadsOk(ps[i])
    ensures forall j :: 0 <= j < |Row(ps, |ps|, r)| ==>
      Live(ps[Row(ps, |ps|, r)[j]]) && ThreadsOk(ps[Row(ps, |ps|, r)[j]])
  {
    var row := Row(ps, |ps|, r);
    forall j | 0 <= j < |row|
      ensures Live(ps[row[j]]) && ThreadsOk(ps[row[j]])
    {
      assert row[j] in row;
    }
  }

  lemma {:induction false} NothingReady(ps: seq<Proc>)
    requires forall r: nat, x: nat :: r < PRIORITIES && x in Row(ps, |ps|, r) ==> !CanRun(ps[x])
    ensures ReadySlots(ps) == {}
  {
    forall x: nat | x < |ps| && Live(ps[x])
      ensures !CanRun(ps[x])
    {
      assert x in Row(ps, |ps|, AgedNice(ps[x].currentNice));
    }
  }

  lemma {:induction false} CanRunAged(p: Proc)
    ensures CanRun(Aged(p)) == CanRun(p)
  {
    assert Aged(p).threads == p.threads && Aged(p).currentThread == p.currentThread && Aged(p).pending == p.pending;
  }

  /** Tables with the same pids agree on liveness, distinctness and use of pids. */
  lemma {:induction false} SamePids(ps: seq<Proc>, qs: seq<Proc>)
    requires |ps| == |qs| && forall i :: 0 <= i < |ps| ==> ps[i].pid == qs[i].pid
    ensures LiveCount(ps) == LiveCount(qs) && PidsDistinct(ps) == PidsDistinct(qs)
    ensures forall pid :: PidUsed(ps, pid) <==> PidUsed(qs, pid)
  {
    LiveCountSame(ps, qs);
    forall pid
      ensures PidUsed(ps, pid) <==> PidUsed(qs, pid)
    {
      if i :| 0 <= i < |ps| && ps[i].pid == pid { assert qs[i].pid == pid; }
      if i :| 0 <= i < |ps| && qs[i].pid == pid { assert ps[i].pid == pid; }
    }
  }

  lemma {:induction false} StepView(ps: seq<Proc>, aged: seq<Proc>, slot: nat, task: Proc, now: nat)
    requires |aged| == |ps| && slot < |ps| && Live(ps[slot])
    requires forall i :: 0 <= i < |ps| ==> aged[i] == Aged(ps[i])
    requires task.pid == ps[slot].pid && task.nice == task.currentNice == ps[slot].nice && task.lastScheduled == now
    ensures ViewOf(aged[slot := task]) == Step(ViewOf(ps), slot, now)
  {
  }

  /** Filling a free slot with an unused pid keeps the table in order. */
  lemma {:induction false} NewPid(ps: seq<Proc>, slot: nat, child: Proc)
    requires slot < |ps| && !Live(ps[slot]) && Live(child) && !PidUsed(ps, child.pid) && PidsDistinct(ps)
    ensures PidsDistinct(ps[slot := child]) && LiveCount(ps[slot := child]) == LiveCount(ps) + 1
    ensures PidUsed(ps, 0) ==> PidUsed(ps[slot := child], 0)
  {
    LiveCountUpdate(ps, slot, child);
    if PidUsed(ps, 0) {
      var i :| 0 <= i < |ps| && ps[i].pid == 0;
      assert ps[slot := child][i].pid == 0;
    }
  }

  lemma {:induction false} AllLiveCount(ps: seq<Proc>)
    requires forall i :: 0 <= i < |ps| ==> Live(ps[i])
    ensures LiveCount(ps) == |ps|
    decreases |ps|
  {
    if ps != [] { AllLiveCount(ps[..|ps| - 1]); }
  }

  /** Copying a live slot over a free one uses no new pid. */
  lemma {:induction false} CopyUsesSamePids(ps: seq<Proc>, slot: nat, parent: nat, task: Proc)
    requires slot < |ps| && parent < |ps| && !Live(ps[slot]) && Live(ps[parent]) && task.pid == ps[parent].pid
    ensures forall pid :: pid != -1 ==> (PidUsed(ps[slot := task], pid) <==> PidUsed(ps, pid))
  {
    forall pid | pid != -1
      ensures PidUsed(ps[slot := task], pid) <==> PidUsed(ps, pid)
    {
      if PidUsed(ps, pid) {
        var i :| 0 <= i < |ps| && ps[i].pid == pid;
        assert ps[slot := task][i].pid == pid;
      }
      if PidUsed(ps[slot := task], pid) {
        var i :| 0 <= i < |ps| && ps[slot := task][i].pid == pid;
        assert ps[if i == slot then parent else i].pid == pid;
      }
    }
  }

  /** After 255 forks whose children have all gone again, the next fork is refused although one process is live. */
  method ForkRefused(thread: Thread) returns (t: Table, r: Option<nat>)
    ensures r.None? && LiveCount(t.procs[..]) == 1
  {
    t := new Table(thread);
    for i := 0 to 255
      invariant fresh(t) && fresh(t.procs) && t.Valid() && Live(t.procs[0])
      invariant t.processCount == 1 + i && t.deleted == i
    {
      var child := t.Fork(0, thread);
      t.Delete(child.value);
    }
    r := t.Fork(0, thread);
  }
}
