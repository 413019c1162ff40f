/** The alarms of the programmable interval timer: ids that are the least unused ones, and lookup by id. */
module Alarms {
  import opened Options

  const MIN_TICKS: int := 5

  datatype Alarm = Alarm(id: int, ticks: int, rearm: int)

  ghost predicate Used(alarms: seq<Alarm>, id: int) {
    exists i :: 0 <= i < |alarms| && alarms[i].id == id
  }

  ghost predicate Unique(alarms: seq<Alarm>) {
    forall i, j :: 0 <= i < j < |alarms| ==> alarms[i].id != alarms[j].id
  }

  /** id is the least non-negative id that no alarm has. */
  ghost predicate LeastUnused(alarms: seq<Alarm>, id: int) {
    0 <= id && !Used(alarms, id) && forall k :: 0 <= k < id ==> Used(alarms, k)
  }

  /** How many alarms have an id of at least `id`: what every restart of the search decreases. */
  function AtLeast(alarms: seq<Alarm>, id: int): nat {
    if alarms == [] then 0 else AtLeast(alarms[1..], id) + if alarms[0].id >= id then 1 else 0
  }

  lemma {:induction false} FewerAtLeast(alarms: seq<Alarm>, id: int)
    ensures AtLeast(alarms, id + 1) <= AtLeast(alarms, id)
  {
    if alarms != [] { FewerAtLeast(alarms[1..], id); }
  }

  lemma {:induction false} OneFewerAtLeast(alarms: seq<Alarm>, i: nat)
    requires i < |alarms|
    ensures AtLeast(alarms, alarms[i].id + 1) < AtLeast(alarms, alarms[i].id)
  {
    if i == 0 {
      FewerAtLeast(alarms[1..], alarms[0].id);
    } else {
      OneFewerAtLeast(alarms[1..], i - 1);
    }
  }

  /** n alarms leave one of the ids 0, ..., n unused, so ids stay small. */
  lemma {:induction false} LeastUnusedBound(alarms: seq<Alarm>, id: int)
    requires LeastUnused(alarms, id)
    ensures id <= |alarms|
  {
    if id > 0 { assert Used(alarms, id - 1); }
    EnoughAlarms(alarms, id);
  }

  /** When 0, ..., n-1 are all in use there are at least n alarms. */
  lemma {:induction false} EnoughAlarms(alarms: seq<Alarm>, n: nat)
    requires forall k :: 0 <= k < n ==> Used(alarms, k)
    ensures n <= |alarms|
    decreases n
  {
    if n > 0 {
      assert Used(alarms, n - 1);
      var i :| 0 <= i < |alarms| && alarms[i].id == n - 1;
      var rest := alarms[..i] + alarms[i + 1..];
      forall k | 0 <= k < n - 1
        ensures Used(rest, k)
      {
        assert Used(alarms, k);
        var j :| 0 <= j < |alarms| && alarms[j].id == k;
        assert rest[if j < i then j else j - 1].id == k;
      }
      EnoughAlarms(rest, n - 1);
    }
  }

  function Ids(alarms: seq<Alarm>): (r: seq<int>)
    ensures |r| == |alarms|
  {
    seq(|alarms|, i requires 0 <= i < |alarms| => alarms[i].id)
  }

  /** The list without its first alarm of that id. */
  function Without(alarms: seq<Alarm>, id: int): seq<Alarm> {
    Dropped(alarms, FirstAt(Ids(alarms), id))
  }

  /** With unique ids removal leaves the others and frees the id. */
  lemma {:induction false} RemovedIsUnused(alarms: seq<Alarm>, k: nat)
    requires Unique(alarms) && k < |alarms|
    ensures var rest := alarms[..k] + alarms[k + 1..];
            Unique(rest) && forall id :: Used(rest, id) <==> Used(alarms, id) && id != alarms[k].id
  {
    var rest := alarms[..k] + alarms[k + 1..];
    forall id
      ensures Used(rest, id) <==> Used(alarms, id) && id != alarms[k].id
    {
      if Used(rest, id) {
        var j :| 0 <= j < |rest| && rest[j].id == id;
        assert alarms[if j < k then j else j + 1].id == id;
      }
      if Used(alarms, id) && id != alarms[k].id {
        var j :| 0 <= j < |alarms| && alarms[j].id == id;
        assert rest[if j < k then j else j - 1].id == id;
      }
    }
  }

  class Pit {
    var alarms: seq<Alarm>

    ghost predicate Valid()
      reads this
    {
      Unique(alarms) && forall i :: 0 <= i < |alarms| ==> alarms[i].id >= 0
    }

    /** find_free_alarm_id: the search starts over whenever the candidate is taken. */
    method FindFreeAlarmId() returns (id: int)
      ensures LeastUnused(alarms, id) && id <= |alarms|
    {
      id := 0;
      var i := 0;
      while i < |alarms|
        invariant 0 <= id && 0 <= i <= |alarms|
        invariant forall k :: 0 <= k < i ==> alarms[k].id != id
        invariant forall k :: 0 <= k < id ==> Used(alarms, k)
        decreases AtLeast(alarms, id), |alarms| - i
      {
        if alarms[i].id == id {
          OneFewerAtLeast(alarms, i);
          id := id + 1;
          i := 0;
        } else {
          i := i + 1;
        }
      }
      LeastUnusedBound(alarms, id);
    }

    /** add_alarm; -1 stands for the two panics and for a failed allocation. */
    method AddAlarm(ticks: int, rearm: int, callback: bool, memory: bool) returns (id: int)
      requires Valid()
      modifies this
      ensures Valid()
      ensures id == -1 <==> ticks < MIN_TICKS || !callback || !memory
      ensures id == -1 ==> alarms == old(alarms)
      ensures id != -1 ==> LeastUnused(old(alarms), id) && alarms == [Alarm(id, ticks, rearm)] + old(alarms)
    {
      if ticks < MIN_TICKS {
        return -1;
      }
      if !callback {
        return -1;
      }
      if !memory {
        return -1;
      }
      id := FindFreeAlarmId();
      assert forall i :: 0 <= i < |alarms| ==> alarms[i].id != id;
      alarms := [Alarm(id, ticks, rearm)] + alarms;
    }

    /** get_remaining_ticks: with unique ids, the ticks of the alarm with that id. */
    method GetRemainingTicks(id: int) returns (ticks: int)
      requires Valid()
      ensures !Used(alarms, id) ==> ticks == -1
      ensures forall i :: 0 <= i < |alarms| && alarms[i].id == id ==> ticks == alarms[i].ticks
    {
      for i := 0 to |alarms|
        invariant forall k :: 0 <= k < i ==> alarms[k].id != id
      {
        if alarms[i].id == id {
          return alarms[i].ticks;
        }
      }
      ticks := -1;
    }

    /** remove_alarm: the alarm with that id goes, every other stays. */
    method RemoveAlarm(id: int)
      requires Valid()
      modifies this
      ensures Valid() && alarms == Without(old(alarms), id)
      ensures forall k :: Used(alarms, k) <==> old(Used(alarms, k)) && k != id
    {
      var i := 0;
      while i < |alarms|
        invariant 0 <= i <= |alarms| && alarms == old(alarms)
        invariant forall k :: 0 <= k < i ==> alarms[k].id != id
      {
        if alarms[i].id == id {
          assert Ids(alarms)[i] == id && FirstAt(Ids(alarms), id) == i;
          RemovedIsUnused(alarms, i);
          alarms := alarms[..i] + alarms[i + 1..];
          return;
        }
        i := i + 1;
      }
      assert FirstAt(Ids(alarms), id) == |alarms|;
    }
  }

  /** Adding and then removing an alarm leaves the list as it was. */
  lemma {:induction false} RemoveUndoesAdd(alarms: seq<Alarm>, a: Alarm)
    requires LeastUnused(alarms, a.id)
    ensures Without([a] + alarms, a.id) == alarms
  {
    assert Ids([a] + alarms)[0] == a.id;
  }
}
