/** The alarm clock: a 32-bit tick counter that wraps, and alarms that are nevertheless on time. */
module Alarms {
  import opened Bytes

  // ---------------------------------------------------------------- one alarm

  /** What the clock keeps of an alarm: the wrapped time and the rollover flag. */
  datatype Entry = Entry(time: Dword, rollover: bool)

  /** alt_alarm_start at counter value current. */
  function Started(nticks: Dword, current: Dword): Entry {
    var time := (nticks + current + 1) % 0x1_0000_0000;
    Entry(time, time < current)
  }

  /** At counter value 0 the rollover flag is cleared. */
  function Cleared(e: Entry, counter: Dword): Entry {
    if e.rollover && counter == 0 then e.(rollover := false) else e
  }

  predicate Expired(e: Entry, counter: Dword) {
    e.time <= counter && !e.rollover
  }

  /** After a callback that returned interval. */
  function Rearmed(e: Entry, interval: Dword, counter: Dword): Entry {
    var time := (e.time + interval) % 0x1_0000_0000;
    Entry(time, e.rollover || time < counter)
  }

  function Counter(now: nat): Dword {
    now % 0x1_0000_0000
  }

  /** An entry stands for the time due on an unbounded clock that shows now. In the last tick before the counter
      wraps the flag does not matter: the wrap clears it. */
  ghost predicate Tracks(e: Entry, due: nat, now: nat) {
    && now < due && due / 0x1_0000_0000 <= now / 0x1_0000_0000 + 1
    && e.time == Counter(due)
    && (Counter(now) != 0xFFFF_FFFF ==> (e.rollover <==> due / 0x1_0000_0000 > now / 0x1_0000_0000))
  }

  /** A start tracks its due time exactly when the delay does not fill the whole counter range, or the counter is
      about to wrap. */
  lemma StartedTracks(nticks: Dword, now: nat)
    ensures Tracks(Started(nticks, Counter(now)), now + nticks + 1, now)
       <==> nticks + 1 < 0x1_0000_0000 || Counter(now) == 0xFFFF_FFFF
  {
  }

  /** An alarm expires in the tick it is due, not earlier, and keeps tracking until then. */
  lemma TickTracks(e: Entry, due: nat, now: nat)
    requires Tracks(e, due, now)
    ensures var c := Counter(now + 1);
      && (Expired(Cleared(e, c), c) <==> due == now + 1)
      && (due != now + 1 ==> Tracks(Cleared(e, c), due, now + 1))
  {
  }

  /** Whatever interval the callback returns, the next time is the previous one plus the interval. */
  lemma RearmedTracks(e: Entry, due: nat, interval: Dword)
    requires e.time == Counter(due) && !e.rollover && 0 < interval
    ensures Tracks(Rearmed(e, interval, Counter(due)), due + interval, due)
  {
  }

  // ---------------------------------------------------------------- forever

  /** When the callback of an alarm runs within the next n ticks; answers are what it returns, 0 at the end. */
  function Fires(e: Entry, now: nat, answers: seq<Dword>, n: nat): seq<nat>
    decreases n
  {
    if n == 0 then []
    else
      var c := Counter(now + 1);
      var f := Cleared(e, c);
      if !Expired(f, c) then Fires(f, now + 1, answers, n - 1)
      else if answers == [] || answers[0] == 0 then [now + 1]
      else [now + 1] + Fires(Rearmed(f, answers[0], c), now + 1, answers[1..], n - 1)
  }

  /** The times on the unbounded clock, up to the given one. */
  function OnTime(due: nat, answers: seq<Dword>, until: nat): seq<nat>
    decreases |answers|
  {
    if due > until then []
    else if answers == [] || answers[0] == 0 then [due]
    else [due] + OnTime(due + answers[0], answers[1..], until)
  }

  lemma {:induction false} FiresOnTime(e: Entry, due: nat, now: nat, answers: seq<Dword>, n: nat)
    requires Tracks(e, due, now)
    ensures Fires(e, now, answers, n) == OnTime(due, answers, now + n)
    decreases n
  {
    if n > 0 {
      TickTracks(e, due, now);
      var c := Counter(now + 1);
      var f := Cleared(e, c);
      if due != now + 1 {
        hide Tracks, Counter;
        FiresOnTime(f, due, now + 1, answers, n - 1);
      } else if answers != [] && answers[0] != 0 {
        RearmedTracks(f, due, answers[0]);
        hide Tracks, Counter;
        FiresOnTime(Rearmed(f, answers[0], c), due + answers[0], now + 1, answers[1..], n - 1);
      }
    }
  }

  /** Across any number of wraps an alarm runs at start + nticks + 1 and then at each previous time plus the returned
      interval, for all answers and all times, if and only if nticks + 1 fits the counter or the counter is about to wrap. */
  lemma AlwaysOnTime(nticks: Dword, now: nat)
    ensures (forall answers, n :: Fires(Started(nticks, Counter(now)), now, answers, n)
                               == OnTime(now + nticks + 1, answers, now + n))
       <==> nticks + 1 < 0x1_0000_0000 || Counter(now) == 0xFFFF_FFFF
  {
    var e := Started(nticks, Counter(now));
    StartedTracks(nticks, now);
    if nticks + 1 < 0x1_0000_0000 || Counter(now) == 0xFFFF_FFFF {
      forall answers, n
        ensures Fires(e, now, answers, n) == OnTime(now + nticks + 1, answers, now + n)
      {
        FiresOnTime(e, now + nticks + 1, now, answers, n);
      }
    } else {
      FiresTooEarly(now);
      assert OnTime(now + nticks + 1, [], now + 1) == [];
    }
  }

  /** The longest delay started anywhere else runs out with the next tick. */
  lemma FiresTooEarly(now: nat)
    requires Counter(now) != 0xFFFF_FFFF
    ensures Fires(Started(0xFFFF_FFFF, Counter(now)), now, [], 1) == [now + 1]
  {
    var e := Started(0xFFFF_FFFF, Counter(now));
    assert e == Entry(Counter(now), false);
    assert Counter(now + 1) == Counter(now) + 1;
  }

  // ---------------------------------------------------------------- the clock

  class Alarm {
    var time: Dword
    var rollover: bool
    ghost var due: nat

    constructor ()
    {
      time, rollover, due := 0, false, 0;
    }

    function State(): Entry
      reads this
    {
      Entry(time, rollover)
    }
  }

  /** l without a. */
  ghost function Without(l: seq<Alarm>, a: Alarm): seq<Alarm> {
    if l == [] then [] else Without(l[..|l| - 1], a) + (if l[|l| - 1] == a then [] else [l[|l| - 1]])
  }

  /** l without the alarms whose callback returned 0. */
  ghost function Remaining(l: seq<Alarm>, answers: map<Alarm, Dword>): seq<Alarm> {
    if l == [] then []
    else Remaining(l[..|l| - 1], answers) + (if Stops(answers, l[|l| - 1]) then [] else [l[|l| - 1]])
  }

  ghost predicate Stops(answers: map<Alarm, Dword>, a: Alarm) {
    a in answers && answers[a] == 0
  }

  ghost predicate Distinct(l: seq<Alarm>) {
    forall i, j :: 0 <= i < j < |l| ==> l[i] != l[j]
  }

  lemma {:induction false} RemainingIn(l: seq<Alarm>, answers: map<Alarm, Dword>, x: Alarm)
    ensures x in Remaining(l, answers) <==> x in l && !Stops(answers, x)
  {
    if l != [] {
      RemainingIn(l[..|l| - 1], answers, x);
    }
  }

  lemma {:induction false} RemainingDistinct(l: seq<Alarm>, answers: map<Alarm, Dword>)
    requires Distinct(l)
    ensures Distinct(Remaining(l, answers))
  {
    if l != [] {
      var k := |l| - 1;
      RemainingDistinct(l[..k], answers);
      RemainingIn(l[..k], answers, l[k]);
    }
  }

  /** One more alarm, with the answer it gave if its callback ran. */
  lemma {:induction false} RemainingStep(l: seq<Alarm>, k: nat, answers: map<Alarm, Dword>, more: map<Alarm, Dword>)
    requires k < |l| && l[k] !in l[..k]
    requires forall x :: x in l[..k] ==> (Stops(answers, x) <==> Stops(more, x))
    ensures Remaining(l[..k + 1], more) == Remaining(l[..k], answers) + (if Stops(more, l[k]) then [] else [l[k]])
  {
    RemainingSame(l[..k], answers, more);
    assert l[..k + 1][..k] == l[..k];
  }

  lemma {:induction false} RemainingSame(l: seq<Alarm>, answers: map<Alarm, Dword>, more: map<Alarm, Dword>)
    requires forall x :: x in l ==> (Stops(answers, x) <==> Stops(more, x))
    ensures Remaining(l, answers) == Remaining(l, more)
  {
    if l != [] {
      RemainingSame(l[..|l| - 1], answers, more);
    }
  }

  lemma {:induction false} WithoutSplit(l: seq<Alarm>, i: nat)
    requires Distinct(l) && i < |l|
    ensures Without(l, l[i]) == l[..i] + l[i + 1..]
  {
    var k := |l| - 1;
    if i == k {
      WithoutNone(l[..k], l[k]);
    } else {
      WithoutSplit(l[..k], i);
    }
  }

  lemma {:induction false} WithoutNone(l: seq<Alarm>, a: Alarm)
    requires a !in l
    ensures Without(l, a) == l
  {
    if l != [] {
      WithoutNone(l[..|l| - 1], a);
    }
  }

  const ENOTSUP := 134
  const EINVAL := 22

  class Clock {
    var rate: Dword        // _alt_tick_rate
    var nticks: Dword      // _alt_nticks
    var alarms: seq<Alarm> // alt_alarm_list
    ghost var now: nat     // ticks since reset

    constructor (rate: Dword)
      ensures Valid() && this.rate == rate && nticks == 0 && alarms == [] && now == 0
    {
      this.rate, nticks, alarms, now := rate, 0, [], 0;
    }

    ghost predicate Valid()
      reads this, alarms
    {
      nticks == Counter(now) && Distinct(alarms) && forall a :: a in alarms ==> Tracks(a.State(), a.due, now)
    }

    /** alt_alarm_start: 0, or an error without a system clock or without an alarm. */
    method Start(alarm: Alarm?, delay: Dword) returns (ret: int)
      requires Valid() && alarm !in alarms
      modifies this`alarms, alarm
      ensures ret == if rate == 0 then -ENOTSUP else if alarm == null then -EINVAL else 0
      ensures alarms == if ret == 0 then [alarm] + old(alarms) else old(alarms)
      ensures ret == 0 ==> alarm.State() == Started(delay, nticks) && alarm.due == now + delay + 1
      ensures ret != 0 && alarm != null ==> unchanged(alarm)
      ensures ret == 0 && (delay + 1 < 0x1_0000_0000 || nticks == 0xFFFF_FFFF) ==> Valid()
    {
      if rate == 0 {
        return -ENOTSUP;
      }
      if alarm == null {
        return -EINVAL;
      }
      StartedTracks(delay, now);
      hide Tracks;
      var current := nticks;
      alarm.time := (delay + current + 1) % 0x1_0000_0000;
      alarm.rollover := alarm.time < current;
      alarm.due := now + delay + 1;
      alarms := [alarm] + alarms;
      ret := 0;
    }

    /** alt_alarm_stop; an alarm that is not running stays so. */
    method Stop(alarm: Alarm)
      requires Valid()
      modifies this`alarms
      ensures Valid() && alarms == Without(old(alarms), alarm)
    {
      hide Tracks;
      var i := 0;
      while i < |alarms| && alarms[i] != alarm
        invariant i <= |alarms| && alarm !in alarms[..i]
      {
        i := i + 1;
      }
      if i < |alarms| {
        WithoutSplit(alarms, i);
        alarms := alarms[..i] + alarms[i + 1..];
      } else {
        WithoutNone(alarms, alarm);
      }
    }

    /** What a tick does to one alarm: ran tells whether the callback was made, next what it returned. */
    method Process(alarm: Alarm) returns (ran: bool, next: Dword)
      requires 0 < now && nticks == Counter(now) && Tracks(alarm.State(), alarm.due, now - 1)
      modifies alarm
      ensures ran <==> old(alarm.due) == now
      ensures alarm.due == if ran then now + next else old(alarm.due)
      ensures !ran || next != 0 ==> Tracks(alarm.State(), alarm.due, now)
    {
      TickTracks(alarm.State(), alarm.due, now - 1);
      ran, next := false, 0;
      if alarm.rollover && nticks == 0 {
        alarm.rollover := false;
      }
      if alarm.time <= nticks && !alarm.rollover {
        ran, next := true, *;
        if next != 0 {
          RearmedTracks(alarm.State(), now, next);
          alarm.time := (alarm.time + next) % 0x1_0000_0000;
          if alarm.time < nticks {
            alarm.rollover := true;
          }
        }
        alarm.due := now + next;
      }
    }

    /** The alarms of s have been looked at in this tick; due0 are the times before it. */
    ghost predicate Done(s: seq<Alarm>, answers: map<Alarm, Dword>, due0: map<Alarm, nat>)
      reads this`now, s
    {
      forall a :: a in s ==>
        && a in due0 && (a in answers <==> due0[a] == now)
        && (!Stops(answers, a) ==>
          Tracks(a.State(), a.due, now) && a.due == if a in answers then now + answers[a] else due0[a])
    }

    /** The alarms of s have not yet been looked at in this tick. */
    ghost predicate Waiting(s: seq<Alarm>, due0: map<Alarm, nat>)
      reads this`now, s
    {
      0 < now && forall a :: a in s ==> a in due0 && a.due == due0[a] && Tracks(a.State(), a.due, now - 1)
    }

    /** One round of the loop of alt_tick: the alarm at position k of the list as it was. */
    method Visit(alarm: Alarm, ghost l: seq<Alarm>, ghost k: nat, ghost answers: map<Alarm, Dword>,
                 ghost due0: map<Alarm, nat>)
      returns (stop: bool, ghost more: map<Alarm, Dword>)
      requires nticks == Counter(now) && Distinct(l) && k < |l| && alarm == l[k] && alarm !in answers
      requires Done(l[..k], answers, due0) && Waiting(l[k..], due0)
      modifies alarm
      ensures Done(l[..k + 1], more, due0) && Waiting(l[k + 1..], due0)
      ensures stop <==> Stops(more, alarm)
      ensures forall a :: a != alarm ==> (a in more <==> a in answers) && (a in answers ==> more[a] == answers[a])
    {
      DistinctAt(l, k);
      hide Tracks, Counter, Distinct;
      var ran, next := Process(alarm);
      stop := ran && next == 0;
      more := if ran then answers[alarm := next] else answers;
    }

    /** alt_alarm_stop in the course of a tick. */
    method Unlink(i: nat, ghost l: seq<Alarm>, ghost k: nat, ghost answers: map<Alarm, Dword>,
                  ghost due0: map<Alarm, nat>)
      requires i < |alarms| && k <= |l| && Done(l[..k], answers, due0) && Waiting(l[k..], due0)
      modifies this`alarms
      ensures alarms == old(alarms[..i] + alarms[i + 1..])
      ensures Done(l[..k], answers, due0) && Waiting(l[k..], due0)
    {
      hide Tracks;
      alarms := alarms[..i] + alarms[i + 1..];
    }

    /** The loop has looked at the first k alarms of l and stands at index i of the list. */
    ghost predicate Walked(l: seq<Alarm>, k: nat, i: nat, answers: map<Alarm, Dword>, due0: map<Alarm, nat>)
      reads this`now, this`alarms, l
    {
      && k <= |l| && i == |Remaining(l[..k], answers)| && alarms == Remaining(l[..k], answers) + l[k..]
      && (forall a :: a in answers ==> a in l[..k])
      && Done(l[..k], answers, due0) && Waiting(l[k..], due0)
    }

    /** One round of the loop of alt_tick. */
    method Advance(i0: nat, ghost l: seq<Alarm>, ghost k: nat, ghost answers: map<Alarm, Dword>,
                   ghost due0: map<Alarm, nat>)
      returns (i: nat, ghost more: map<Alarm, Dword>)
      requires nticks == Counter(now) && Distinct(l) && i0 < |alarms| && Walked(l, k, i0, answers, due0)
      modifies this`alarms, l
      ensures k < |l| && Walked(l, k + 1, i, more, due0)
    {
      hide Tracks, Counter, Remaining, Distinct, Done, Waiting;
      DistinctAt(l, k);
      ListStep(alarms, Remaining(l[..k], answers), l, k);
      var alarm := alarms[i0];
      var stop: bool;
      stop, more := Visit(alarm, l, k, answers, due0);
      RemainingStep(l, k, answers, more);
      i := if stop then i0 else i0 + 1;
      if stop {
        Unlink(i0, l, k + 1, more, due0);
      }
    }

    /** The loop of alt_tick over the list l. */
    method Walk(ghost l: seq<Alarm>, ghost due0: map<Alarm, nat>) returns (ghost answers: map<Alarm, Dword>)
      requires nticks == Counter(now) && alarms == l && Distinct(l) && Waiting(l, due0)
      modifies this`alarms, l
      ensures Done(l, answers, due0) && alarms == Remaining(l, answers)
      ensures forall a :: a in answers ==> a in l
    {
      hide *;
      answers := map[];
      var i: nat := 0;
      ghost var k := 0;
      WalkStarts(l, due0);
      while i < |alarms|
        invariant nticks == Counter(now) && k <= |l| && Walked(l, k, i, answers, due0)
        decreases |l| - k
      {
        i, answers := Advance(i, l, k, answers, due0);
        k := k + 1;
      }
      WalkEnds(l, k, i, answers, due0);
    }

    lemma WalkStarts(l: seq<Alarm>, due0: map<Alarm, nat>)
      requires alarms == l && Waiting(l, due0)
      ensures Walked(l, 0, 0, map[], due0)
    {
      hide Tracks, Waiting, Remaining;
      RemainingNothing(l);
      assert l[0..] == l;
    }

    lemma WalkEnds(l: seq<Alarm>, k: nat, i: nat, answers: map<Alarm, Dword>, due0: map<Alarm, nat>)
      requires Walked(l, k, i, answers, due0) && i >= |alarms|
      ensures Done(l, answers, due0) && alarms == Remaining(l, answers) && forall a :: a in answers ==> a in l
    {
      hide Done, Waiting, Remaining;
      assert l[..k] == l;
    }

    /** alt_tick. answers are the callbacks made with what they returned. */
    method Tick() returns (ghost answers: map<Alarm, Dword>)
      requires Valid()
      modifies this, alarms
      ensures Valid() && now == old(now) + 1 && rate == old(rate)
      ensures forall a :: a in old(alarms) ==> (a in answers <==> old(a.due) == now)
      ensures forall a :: a in answers ==> a in old(alarms)
      ensures alarms == Remaining(old(alarms), answers)
      ensures forall a :: a in old(alarms) && !Stops(answers, a) ==>
        a.due == if a in answers then now + answers[a] else old(a.due)
    {
      NextCounter(now);
      hide Tracks, Counter, Remaining, Distinct;
      ghost var l := alarms;
      ghost var due0 := map a | a in l :: a.due;
      now := now + 1;
      nticks := (nticks + 1) % 0x1_0000_0000;
      assert Waiting(l, due0);
      answers := Walk(l, due0);
      RemainingDistinct(l, answers);
      forall a
        ensures a in alarms <==> a in l && !Stops(answers, a)
      {
        RemainingIn(l, answers, a);
      }
    }
  }

  lemma DistinctAt(l: seq<Alarm>, k: nat)
    requires Distinct(l) && k < |l|
    ensures l[k] !in l[..k] && l[k] !in l[k + 1..]
    ensures forall x :: x in l[..k + 1] <==> x in l[..k] || x == l[k]
    ensures forall x :: x in l[k..] <==> x in l[k + 1..] || x == l[k]
  {
    assert l[..k + 1] == l[..k] + [l[k]];
    assert l[k..] == [l[k]] + l[k + 1..];
  }

  lemma ListStep(list: seq<Alarm>, r: seq<Alarm>, l: seq<Alarm>, k: nat)
    requires k < |l| && list == r + l[k..]
    ensures list[|r|] == l[k]
    ensures list == r + [l[k]] + l[k + 1..] && list[..|r|] + list[|r| + 1..] == r + [] + l[k + 1..]
  {
  }

  lemma RemainingNothing(l: seq<Alarm>)
    ensures Remaining(l[..0], map[]) == []
  {
  }

  lemma NextCounter(now: nat)
    ensures Counter(now + 1) == (Counter(now) + 1) % 0x1_0000_0000
  {
  }
}
