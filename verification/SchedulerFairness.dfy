/**
 The aging priority scheduler seen as a transition system: which process a
 call of the scheduler may choose, what the call changes, and how long a
 process that stays runnable can be passed over.
 */
module SchedulerFairness {

  const PRIORITIES: nat := 20

  /** The scheduling fields of a live process. */
  datatype Entry = Entry(nice: int, currentNice: int, lastScheduled: nat)

  /** Live process slots and their scheduling fields. */
  type View = map<nat, Entry>

  /** One aging step, clamped to the priority rows. */
  function AgedNice(currentNice: int): (r: int)
    ensures 0 <= r < PRIORITIES
    ensures r <= currentNice || r == 0
  {
    var n := currentNice - 1;
    if n < 0 then 0 else if n > PRIORITIES - 1 then PRIORITIES - 1 else n
  }

  /** Lower row first, then least recently scheduled, then the higher slot. */
  predicate Before(v: View, a: nat, b: nat)
    requires a in v && b in v
  {
    var x, y := v[a], v[b];
    AgedNice(x.currentNice) < AgedNice(y.currentNice)
    || (AgedNice(x.currentNice) == AgedNice(y.currentNice)
        && (x.lastScheduled < y.lastScheduled || (x.lastScheduled == y.lastScheduled && a > b)))
  }

  /** c is the first ready process in scheduling order. */
  ghost predicate Chosen(v: View, ready: set<nat>, c: nat) {
    c in v && c in ready && forall q :: q in v && q in ready && q != c ==> Before(v, c, q)
  }

  /** The order leaves no freedom: a call has one possible choice. */
  lemma {:induction false} ChoiceUnique(v: View, ready: set<nat>, c: nat, d: nat)
    requires Chosen(v, ready, c) && Chosen(v, ready, d)
    ensures c == d
  {
  }

  /** Effect of a call: everybody ages, the chosen process is stamped and reset. */
  function Step(v: View, c: nat, now: nat): View {
    map q | q in v :: if q == c then Entry(v[q].nice, v[q].nice, now)
                      else v[q].(currentNice := AgedNice(v[q].currentNice))
  }

  /** Between two calls processes may exit and change their nice values; none is created or re-executed. */
  ghost predicate Between(u: View, v: View) {
    v.Keys <= u.Keys
    && forall q :: q in v ==> v[q].currentNice == u[q].currentNice && v[q].lastScheduled == u[q].lastScheduled
  }

  datatype Call = Call(view: View, ready: set<nat>, chosen: nat, now: nat)

  /** A run of scheduler calls during which p stays live and ready. */
  ghost predicate WaitingRun(calls: seq<Call>, p: nat) {
    && (forall i :: 0 <= i < |calls| ==> Chosen(calls[i].view, calls[i].ready, calls[i].chosen))
    && (forall i :: 0 <= i < |calls| ==> p in calls[i].view && p in calls[i].ready)
    && (forall i :: 0 <= i < |calls| - 1 ==>
          Between(Step(calls[i].view, calls[i].chosen, calls[i].now), calls[i + 1].view))
    && (forall i :: 0 <= i < |calls| - 1 ==> calls[i].now < calls[i + 1].now)
    && (|calls| > 0 ==> calls[0].view[p].lastScheduled <= calls[0].now)
  }

  /** Processes that were not scheduled later than p: the only ones that can still precede p in row 0. */
  ghost function Rivals(v: View, p: nat): set<nat>
    requires p in v
  {
    set q | q in v && q != p && v[q].lastScheduled <= v[p].lastScheduled
  }

  /** Calls after which p must have been chosen. */
  ghost function Patience(v: View, p: nat): nat
    requires p in v
  {
    AgedNice(v[p].currentNice) + |Rivals(v, p)| + 1
  }

  lemma {:induction false} SubsetSize<T>(a: set<T>, b: set<T>)
    requires a <= b
    ensures |a| <= |b|
  {
    assert b == a + (b - a);
  }

  /** A call that passes p over uses up one unit of patience. */
  lemma {:induction false} PatienceDecreases(v: View, ready: set<nat>, c: nat, now: nat, w: View, p: nat)
    requires Chosen(v, ready, c) && p in v && p in ready && c != p && p in w
    requires v[p].lastScheduled < now && Between(Step(v, c, now), w)
    ensures w[p].lastScheduled == v[p].lastScheduled
    ensures Patience(w, p) < Patience(v, p)
  {
    assert Before(v, c, p);
    assert c !in Rivals(w, p);
    assert Rivals(w, p) <= Rivals(v, p) - {c};
    SubsetSize(Rivals(w, p), Rivals(v, p) - {c});
    if AgedNice(v[p].currentNice) == 0 {
      assert c in Rivals(v, p);
    } else {
      SubsetSize(Rivals(v, p) - {c}, Rivals(v, p));
    }
  }

  lemma {:induction false} ChosenWithinPatience(calls: seq<Call>, p: nat)
    requires WaitingRun(calls, p) && |calls| > 0 && |calls| >= Patience(calls[0].view, p)
    requires calls[0].view[p].lastScheduled < calls[0].now
    ensures exists i :: 0 <= i < Patience(calls[0].view, p) && calls[i].chosen == p
    decreases |calls|
  {
    var first := calls[0];
    if first.chosen == p {
      assert calls[0].chosen == p;
    } else {
      if |calls| == 1 {
        RivalExists(first.view, first.ready, first.chosen, p);
      } else {
        var rest := calls[1..];
        PatienceDecreases(first.view, first.ready, first.chosen, first.now, rest[0].view, p);
        assert WaitingRun(rest, p);
        ChosenWithinPatience(rest, p);
        var i :| 0 <= i < Patience(rest[0].view, p) && rest[i].chosen == p;
        assert calls[i + 1].chosen == p;
      }
    }
  }

  /** If somebody else is chosen, p's patience is at least two calls. */
  lemma {:induction false} RivalExists(v: View, ready: set<nat>, c: nat, p: nat)
    requires Chosen(v, ready, c) && p in v && p in ready && c != p
    ensures Patience(v, p) >= 2
  {
    assert Before(v, c, p);
    if AgedNice(v[p].currentNice) == 0 {
      assert c in Rivals(v, p);
    }
  }

  /** With n live processes and p stamped before the first call: PRIORITIES + n - 1 calls suffice. */
  lemma {:induction false} BoundedWaitingStamped(calls: seq<Call>, p: nat)
    requires WaitingRun(calls, p) && |calls| > 0 && |calls| >= PRIORITIES + |calls[0].view| - 1
    requires calls[0].view[p].lastScheduled < calls[0].now
    ensures exists i :: 0 <= i < PRIORITIES + |calls[0].view| - 1 && calls[i].chosen == p
  {
    var v := calls[0].view;
    assert Rivals(v, p) <= v.Keys - {p};
    SubsetSize(Rivals(v, p), v.Keys - {p});
    assert |v.Keys - {p}| == |v| - 1;
    ChosenWithinPatience(calls, p);
    var i :| 0 <= i < Patience(v, p) && calls[i].chosen == p;
    assert 0 <= i < PRIORITIES + |v| - 1;
  }

  /**
   Bounded waiting: with n live processes, a process that stays ready is
   chosen within PRIORITIES + n calls, whatever the others do.
   */
  lemma {:induction false} BoundedWaiting(calls: seq<Call>, p: nat)
    requires WaitingRun(calls, p) && |calls| > 0 && |calls| >= PRIORITIES + |calls[0].view|
    ensures exists i :: 0 <= i < PRIORITIES + |calls[0].view| && calls[i].chosen == p
  {
    var first := calls[0];
    if first.chosen == p {
      assert calls[0].chosen == p;
    } else {
      var rest := calls[1..];
      var u := Step(first.view, first.chosen, first.now);
      assert Between(u, rest[0].view);
      assert u.Keys == first.view.Keys;
      SubsetSize(rest[0].view.Keys, first.view.Keys);
      assert |rest[0].view.Keys| == |rest[0].view| && |first.view.Keys| == |first.view|;
      BoundedWaitingStamped(rest, p);
      var i :| 0 <= i < PRIORITIES + |rest[0].view| - 1 && rest[i].chosen == p;
      assert calls[i + 1].chosen == p;
    }
  }
}
