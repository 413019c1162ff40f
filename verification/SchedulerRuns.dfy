/** Bounded waiting carried from the transition system to sequences of calls of sched on the process table. */
module SchedulerRuns {
  import opened SchedulerFairness
  import opened ProcessTable

  datatype SchedCall = SchedCall(before: seq<Proc>, after: seq<Proc>, slot: nat, now: nat)

  /** Between two calls processes may exit, sleep, wake and change their nice values; none is created or re-executed. */
  ghost predicate Undisturbed(after: seq<Proc>, next: seq<Proc>) {
    && |next| == |after|
    && forall i :: 0 <= i < |next| && Live(next[i]) ==>
         Live(after[i]) && next[i].currentNice == after[i].currentNice
         && next[i].lastScheduled == after[i].lastScheduled
  }

  /** Calls of sched during which sched_thread would succeed for the process in slot p. */
  ghost predicate WaitingCalls(calls: seq<SchedCall>, p: nat) {
    && (forall i :: 0 <= i < |calls| ==> SchedStep(calls[i].before, calls[i].after, calls[i].slot, calls[i].now))
    && (forall i :: 0 <= i < |calls| ==>
          p < |calls[i].before| && Live(calls[i].before[p]) && CanRun(calls[i].before[p]))
    && (forall i :: 0 <= i < |calls| - 1 ==> Undisturbed(calls[i].after, calls[i + 1].before))
    && (forall i :: 0 <= i < |calls| - 1 ==> calls[i].now < calls[i + 1].now)
    && (|calls| > 0 ==> calls[0].before[p].lastScheduled <= calls[0].now)
  }

  function AsCall(c: SchedCall): Call {
    Call(ViewOf(c.before), ReadySlots(c.before), c.slot, c.now)
  }

  function AsCalls(calls: seq<SchedCall>): (r: seq<Call>)
    ensures |r| == |calls| && forall i :: 0 <= i < |calls| ==> r[i] == AsCall(calls[i])
  {
    seq(|calls|, i requires 0 <= i < |calls| => AsCall(calls[i]))
  }

  lemma {:induction false} ViewsBetween(after: seq<Proc>, next: seq<Proc>)
    requires Undisturbed(after, next)
    ensures Between(ViewOf(after), ViewOf(next))
  {
  }

  function LiveSlots(ps: seq<Proc>): set<nat> {
    set i: nat | i < |ps| && Live(ps[i])
  }

  lemma {:induction false} LiveSlotCount(ps: seq<Proc>)
    ensures |LiveSlots(ps)| == LiveCount(ps)
    decreases |ps|
  {
    if ps == [] {
      assert LiveSlots(ps) == {};
    } else {
      var n := |ps| - 1;
      LiveSlotCount(ps[..n]);
      assert LiveSlots(ps) == if Live(ps[n]) then LiveSlots(ps[..n]) + {n} else LiveSlots(ps[..n]);
    }
  }

  lemma {:induction false} ViewSize(ps: seq<Proc>)
    ensures |ViewOf(ps)| == LiveCount(ps)
  {
    LiveSlotCount(ps);
    assert ViewOf(ps).Keys == LiveSlots(ps);
    assert |ViewOf(ps)| == |ViewOf(ps).Keys|;
  }

  lemma {:induction false} AsWaitingRun(calls: seq<SchedCall>, p: nat)
    requires WaitingCalls(calls, p)
    ensures WaitingRun(AsCalls(calls), p)
  {
    var runs := AsCalls(calls);
    forall i | 0 <= i < |runs| - 1
      ensures Between(Step(runs[i].view, runs[i].chosen, runs[i].now), runs[i + 1].view)
    {
      ViewsBetween(calls[i].after, calls[i + 1].before);
    }
  }

  /** Bounded waiting of sched: with n live processes, a runnable one is dispatched within PRIORITIES + n calls. */
  lemma {:induction false} SchedIsFair(calls: seq<SchedCall>, p: nat)
    requires WaitingCalls(calls, p) && |calls| > 0 && |calls| >= PRIORITIES + LiveCount(calls[0].before)
    ensures exists i :: 0 <= i < PRIORITIES + LiveCount(calls[0].before) && calls[i].slot == p
  {
    var runs := AsCalls(calls);
    ViewSize(calls[0].before);
    AsWaitingRun(calls, p);
    BoundedWaiting(runs, p);
    var i :| 0 <= i < PRIORITIES + |runs[0].view| && runs[i].chosen == p;
    assert calls[i].slot == p;
  }
}
