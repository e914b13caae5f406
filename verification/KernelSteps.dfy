/** Every step keeps the invariant of the kernel. */
module KernelSteps {
  import opened SchedSpec
  import opened Kernel
  import opened KernelTick

  /** No task is in two places of the scheduler, and the idle task is in none. */
  ghost predicate Calm(s: Sched) {
    (forall x :: InSched(s, x) <= 1) && InSched(s, s.idle) == 0
  }

  /** From s to r, task t gains d places in the scheduler and no other task does. */
  ghost predicate Moved(s: Sched, r: Sched, t: nat, d: int) {
    forall x :: InSched(r, x) == InSched(s, x) + if x == t then d else 0
  }

  ghost predicate SameTimes(s: Sched, r: Sched) {
    forall x :: r.Get(x).sliceTicks == s.Get(x).sliceTicks && r.Get(x).timeTicks == s.Get(x).timeTicks
                && r.Get(x).sleepTicks == s.Get(x).sleepTicks
  }

  /** s and r agree on everything but the ready queue and task states. */
  ghost predicate Alike(s: Sched, r: Sched) {
    r.sleep == s.sleep && r.idle == s.idle && SameTimes(s, r)
  }

  function Parked(v: TaskV): nat {
    if v.state == Waiting || v.state == Zombie then 1 else 0
  }

  lemma MovedTwice(s: Sched, a: Sched, r: Sched, t: nat, d: int, e: int)
    requires Moved(s, a, t, d) && Moved(a, r, t, e)
    ensures Moved(s, r, t, d + e)
  {
  }

  lemma AlikeTwice(s: Sched, a: Sched, r: Sched)
    requires Alike(s, a) && Alike(a, r)
    ensures Alike(s, r)
  {
  }

  lemma CalmAfter(s: Sched, r: Sched, t: nat, d: int)
    requires Calm(s) && Moved(s, r, t, d) && r.idle == s.idle && t != s.idle && (d <= 0 || InSched(s, t) + d <= 1)
    ensures Calm(r)
  {
  }

  lemma InReady(s: Sched, x: nat)
    ensures InSched(s, x) == Times(s.ready, x) + Times(s.sleep, x) + Parked(s.Get(x))
    ensures Times(s.ready, x) > 0 <==> x in s.ready
    ensures Times(s.sleep, x) > 0 <==> x in s.sleep
  {
  }

  lemma BlockMoves(s: Sched, t: nat)
    requires t != s.idle && t in s.ready
    ensures Moved(s, SetBlock(s, t), t, -1) && Alike(s, SetBlock(s, t)) && SetBlock(s, t).curr == s.curr
    ensures SetBlock(s, t).Get(t) == s.Get(t)
  {
    hide *;
    SetBlockParts(s, t);
    var r := SetBlock(s, t);
    SameTasks(s, r);
    forall x
      ensures InSched(r, x) == InSched(s, x) + if x == t then -1 else 0
    {
      TimesWithout(s.ready, t, x);
      InReady(s, x);
      InReady(r, x);
    }
    MakeMoved(s, r, t, -1);
  }

  lemma SameTasks(s: Sched, r: Sched)
    requires r.tasks == s.tasks && r.sleep == s.sleep && r.idle == s.idle
    ensures Alike(s, r) && forall x :: r.Get(x) == s.Get(x)
  {
  }

  lemma MakeMoved(s: Sched, r: Sched, t: nat, d: int)
    requires forall x :: InSched(r, x) == InSched(s, x) + if x == t then d else 0
    ensures Moved(s, r, t, d)
  {
  }

  /** One task's state changes and it may join the ready queue. */
  lemma PutMoves(s: Sched, r: Sched, t: nat, v: TaskV, joins: bool)
    requires r.tasks == s.tasks[t := v] && r.sleep == s.sleep && r.idle == s.idle
    requires r.ready == if joins then s.ready + [t] else s.ready
    ensures Moved(s, r, t, Parked(v) - Parked(s.Get(t)) + if joins then 1 else 0)
    ensures var w := s.Get(t);
            v.sliceTicks == w.sliceTicks && v.timeTicks == w.timeTicks && v.sleepTicks == w.sleepTicks ==> Alike(s, r)
    ensures r.Get(t) == v && forall x :: x != t ==> r.Get(x) == s.Get(x)
  {
    hide InSched, Parked;
    forall x
      ensures InSched(r, x) == InSched(s, x) + if x != t then 0
                                               else Parked(v) - Parked(s.Get(t)) + if joins then 1 else 0
    {
      TimesSnoc(s.ready, t, x);
      InReady(s, x);
      InReady(r, x);
    }
  }

  lemma ReadyMoves(s: Sched, t: nat)
    requires t != s.idle
    ensures var r := SetReady(s, t);
            Moved(s, r, t, 1 - Parked(s.Get(t))) && Alike(s, r) && r.curr == s.curr && Parked(r.Get(t)) == 0
  {
    hide SetReady, Moved, Alike;
    SetReadyParts(s, t);
    PutMoves(s, SetReady(s, t), t, s.Get(t).(state := Ready), true);
  }

  lemma DispatchMoves(s: Sched)
    requires Calm(s)
    ensures var r := Dispatch(s); Moved(s, r, 0, 0) && Alike(s, r) && r.curr == NextRun(r) && r.ready == s.ready
  {
    hide *;
    DispatchParts(s);
    var r, to := Dispatch(s), NextRun(s);
    NextUnparked(s);
    if to == s.curr {
      SameTasks(s, s);
      MakeMoved(s, s, 0, 0);
    } else {
      PutMoves(s, r, to, s.Get(to).(state := Running), false);
      NotParked(s.Get(to));
      MovedNone(s, r, to);
    }
    SameNext(s, r);
  }

  lemma SameNext(s: Sched, r: Sched)
    requires r.ready == s.ready && r.idle == s.idle
    ensures NextRun(s) == NextRun(r)
  {
  }

  lemma NotParked(v: TaskV)
    ensures Parked(v.(state := Running)) == 0 && Parked(v.(state := Ready)) == 0
    ensures Parked(v.(state := Waiting)) == 1 && Parked(v.(state := Zombie)) == 1
  {
  }

  lemma MovedNone(s: Sched, r: Sched, t: nat)
    requires Moved(s, r, t, 0)
    ensures forall u :: Moved(s, r, u, 0)
  {
  }

  lemma NextUnparked(s: Sched)
    requires Calm(s)
    ensures Parked(s.Get(NextRun(s))) == 0
  {
    InReady(s, NextRun(s));
  }

  lemma CurrReady(s: Sched)
    requires Calm(s) && s.curr == NextRun(s) && s.curr != s.idle
    ensures s.curr in s.ready && InSched(s, s.curr) == 1 && Parked(s.Get(s.curr)) == 0 && s.curr !in s.sleep
  {
    InReady(s, s.curr);
  }

  // ---------------------------------------------------------------- the scheduler part of each step

  /** An operation that blocks the current task somewhere outside the scheduler. */
  lemma BlockCurr(s: Sched)
    requires Calm(s) && s.curr == NextRun(s) && s.curr != s.idle
    ensures var r := Dispatch(SetBlock(s, s.curr)); Moved(s, r, s.curr, -1) && Alike(s, r) && r.curr == NextRun(r)
  {
    hide *;
    CurrReady(s);
    var a := SetBlock(s, s.curr);
    BlockMoves(s, s.curr);
    AlikeIdle(s, a);
    CalmAfter(s, a, s.curr, -1);
    DispatchMoves(a);
    MovedNone(a, Dispatch(a), 0);
    MovedTwice(s, a, Dispatch(a), s.curr, -1, 0);
    AlikeTwice(s, a, Dispatch(a));
  }

  lemma AlikeIdle(s: Sched, a: Sched)
    requires Alike(s, a)
    ensures a.idle == s.idle && a.sleep == s.sleep
  {
  }

  /** An operation that makes a task ready that was in no place of the scheduler. */
  lemma WakeOne(s: Sched, t: nat)
    requires Calm(s) && t != s.idle && InSched(s, t) == 0
    ensures var r := Dispatch(SetReady(s, t)); Moved(s, r, t, 1) && Alike(s, r) && r.curr == NextRun(r)
  {
    hide *;
    InReady(s, t);
    var a := SetReady(s, t);
    ReadyMoves(s, t);
    AlikeIdle(s, a);
    CalmAfter(s, a, t, 1);
    DispatchMoves(a);
    MovedNone(a, Dispatch(a), 0);
    MovedTwice(s, a, Dispatch(a), t, 1, 0);
    AlikeTwice(s, a, Dispatch(a));
  }

  lemma YieldMoves(s: Sched)
    requires Calm(s) && s.curr == NextRun(s) && s.curr != s.idle
    ensures var r := Yield(s); Moved(s, r, 0, 0) && Alike(s, r) && r.curr == NextRun(r)
  {
    hide *;
    TopParts(s, 0);
    if |s.ready| > 1 {
      CurrReady(s);
      var t := s.curr;
      var a := SetBlock(s, t);
      BlockMoves(s, t);
      var b := SetReady(a, t);
      AlikeIdle(s, a);
      ReadyMoves(a, t);
      AlikeIdle(a, b);
      MovedTwice(s, a, b, t, -1, 1);
      CalmAfter(s, b, t, 0);
      DispatchMoves(b);
      MovedNone(b, Dispatch(b), 0);
      MovedTwice(s, b, Dispatch(b), t, 0, 0);
      MovedNone(s, Dispatch(b), t);
      AlikeTwice(s, a, b);
      AlikeTwice(s, b, Dispatch(b));
    } else {
      SameTasks(s, s);
      MakeMoved(s, s, 0, 0);
    }
  }

  /** The current task goes from the ready queue to a parked state. */
  lemma ParkCurr(s: Sched, s1: Sched, t: nat, v: TaskV)
    requires Calm(s) && t in s.ready && t != s.idle && Parked(s.Get(t)) == 0
    requires Parked(v) == 1 && s1 == Dispatch(SetBlock(s, t).Put(t, v))
    requires v.sliceTicks == s.Get(t).sliceTicks && v.timeTicks == s.Get(t).timeTicks
    requires v.sleepTicks == s.Get(t).sleepTicks
    ensures Moved(s, s1, 0, 0) && Alike(s, s1) && s1.curr == NextRun(s1)
  {
    hide *;
    var a := SetBlock(s, t);
    BlockMoves(s, t);
    AlikeIdle(s, a);
    var b := a.Put(t, v);
    PutParts(a, t, v);
    PutMoves(a, b, t, v, false);
    MovedTwice(s, a, b, t, -1, 1);
    CalmAfter(s, b, t, 0);
    DispatchMoves(b);
    MovedNone(b, s1, 0);
    MovedTwice(s, b, s1, t, 0, 0);
    MovedNone(s, s1, t);
    AlikeTwice(s, a, b);
    AlikeTwice(s, b, s1);
  }

  lemma WaitChildMoves(s: Sched)
    requires Calm(s) && s.curr == NextRun(s) && s.curr != s.idle
    ensures var r := WaitForChild(s); Moved(s, r, 0, 0) && Alike(s, r) && r.curr == NextRun(r)
  {
    hide *;
    TopParts(s, 0);
    CurrReady(s);
    BlockMoves(s, s.curr);
    NotParked(s.Get(s.curr));
    ParkCurr(s, WaitForChild(s), s.curr, s.Get(s.curr).(state := Waiting));
  }

  lemma WakeParent(s: Sched, t: nat)
    requires Calm(s) && s.Get(t).state == Waiting
    ensures var r := SetReady(s, t);
            Moved(s, r, 0, 0) && Alike(s, r) && Calm(r) && r.curr == s.curr && s.ready <= r.ready
  {
    hide SetReady, InSched, Moved, Alike, Calm;
    InReady(s, t);
    CalmIs(s, t);
    SetReadyParts(s, t);
    ReadyMoves(s, t);
    AlikeIdle(s, SetReady(s, t));
    CalmAfter(s, SetReady(s, t), t, 0);
    MovedNone(s, SetReady(s, t), t);
  }

  lemma CalmIs(s: Sched, t: nat)
    requires Calm(s)
    ensures InSched(s, t) <= 1 && InSched(s, s.idle) == 0
  {
  }

  /** Blocking and storing commute, so the last section of sys_exit also parks the current task. */
  lemma PutBlock(s: Sched, t: nat, v: TaskV)
    ensures SetBlock(s.Put(t, v), t) == SetBlock(s, t).Put(t, v)
  {
  }

  lemma WakeExitMoves(s: Sched, parent: nat, first: nat, moveChild: bool)
    requires Calm(s)
    ensures var r := WakeForExit(s, parent, first, moveChild);
            Moved(s, r, 0, 0) && Alike(s, r) && Calm(r) && r.curr == s.curr && s.ready <= r.ready
  {
    hide *;
    ExitParts(s, parent, first, moveChild);
    SameTasks(s, s);
    MakeMoved(s, s, 0, 0);
    var a := s;
    if moveChild && parent != first && s.Get(first).state == Waiting {
      WakeParent(s, first);
      a := SetReady(s, first);
    }
    if a.Get(parent).state == Waiting {
      WakeParent(a, parent);
      MovedTwice(s, a, SetReady(a, parent), 0, 0, 0);
      AlikeTwice(s, a, SetReady(a, parent));
    }
  }

  lemma ExitMoves(s: Sched, parent: nat, first: nat, moveChild: bool)
    requires Calm(s) && s.curr == NextRun(s) && s.curr != s.idle
    ensures var r := Exit(s, parent, first, moveChild); Moved(s, r, 0, 0) && Alike(s, r) && r.curr == NextRun(r)
  {
    hide *;
    ExitParts(s, parent, first, moveChild);
    WakeExitMoves(s, parent, first, moveChild);
    var a := WakeForExit(s, parent, first, moveChild);
    CurrReady(s);
    AlikeIdle(s, a);
    StillReady(s, a);
    NotParked(a.Get(s.curr));
    var v := a.Get(s.curr).(state := Zombie);
    PutBlock(a, s.curr, v);
    var r := Exit(s, parent, first, moveChild);
    ParkCurr(a, r, s.curr, v);
    MovedTwice(s, a, r, 0, 0, 0);
    AlikeTwice(s, a, r);
  }

  lemma StillReady(s: Sched, a: Sched)
    requires s.curr in s.ready && s.ready <= a.ready && Calm(a)
    ensures s.curr in a.ready && Parked(a.Get(s.curr)) == 0
  {
    InReady(a, s.curr);
  }

  /** r is s with t asleep for the given ticks. */
  ghost predicate Slept(s: Sched, r: Sched, t: nat, ticks: nat) {
    && r.sleep == s.sleep + [t] && r.idle == s.idle
    && forall x :: r.Get(x).sliceTicks == s.Get(x).sliceTicks && r.Get(x).timeTicks == s.Get(x).timeTicks
                   && r.Get(x).sleepTicks == if x == t then ticks else s.Get(x).sleepTicks
  }

  lemma SetSleepMoves(s: Sched, t: nat, ticks: nat)
    requires ticks > 0 && Parked(s.Get(t)) == 0
    ensures var r := SetSleep(s, t, ticks); Moved(s, r, t, 1) && Slept(s, r, t, ticks)
  {
    hide InSched, Parked;
    var r := SetSleep(s, t, ticks);
    forall x
      ensures InSched(r, x) == InSched(s, x) + if x == t then 1 else 0
    {
      TimesSnoc(s.sleep, t, x);
      InReady(s, x);
      InReady(r, x);
      SleepParked(s.Get(t), ticks);
    }
  }

  lemma SleepParked(v: TaskV, ticks: nat)
    ensures Parked(v.(sleepTicks := ticks, state := Sleep)) == 0
  {
  }

  lemma SleptAlike(s: Sched, a: Sched, b: Sched, r: Sched, t: nat, ticks: nat)
    requires Alike(s, a) && Slept(a, b, t, ticks) && Alike(b, r)
    ensures Slept(s, r, t, ticks) && b.idle == a.idle
  {
  }

  lemma SleptIdle(a: Sched, b: Sched, t: nat, ticks: nat)
    requires Slept(a, b, t, ticks)
    ensures b.idle == a.idle
  {
  }

  lemma SleepMoves(s: Sched, ms: nat)
    requires Calm(s) && s.curr == NextRun(s) && s.curr != s.idle && SleepTicks(ms) > 0
    ensures var r := SleepFor(s, ms);
            Moved(s, r, 0, 0) && Slept(s, r, s.curr, SleepTicks(ms)) && r.curr == NextRun(r)
  {
    hide *;
    TopParts(s, ms);
    CurrReady(s);
    var t, n, a := s.curr, SleepTicks(ms), SetBlock(s, s.curr);
    BlockMoves(s, t);
    AlikeIdle(s, a);
    SetSleepMoves(a, t, n);
    var b, r := SetSleep(a, t, n), SleepFor(s, ms);
    SleptIdle(a, b, t, n);
    MovedTwice(s, a, b, t, -1, 1);
    CalmAfter(s, b, t, 0);
    DispatchMoves(b);
    MovedNone(b, r, 0);
    MovedTwice(s, b, r, t, 0, 0);
    MovedNone(s, r, t);
    SleptAlike(s, a, b, r, t, n);
  }

  lemma CalmSleepers(s: Sched)
    requires Calm(s) && s.curr == NextRun(s)
    ensures KernelTick.Apart([], s.sleep) && s.idle !in s.sleep && s.curr !in s.sleep
  {
    forall x
      ensures Times(s.sleep, x) <= 1
    {
      InReady(s, x);
    }
    Distinct(s.sleep);
    InReady(s, s.idle);
    InReady(s, s.curr);
  }

  lemma RotatedTimes(s: Sched, x: nat)
    ensures Times(Rotated(s), x) == Times(s.ready, x)
  {
    if |s.ready| > 0 {
      assert s.ready == [s.ready[0]] + s.ready[1..];
    }
  }

  lemma ConcatTimes(a: seq<nat>, b: seq<nat>, x: nat)
    ensures Times(a + b, x) == Times(a, x) + Times(b, x)
  {
  }

  lemma AfterTickParked(s: Sched, r: Sched, x: nat)
    requires Calm(s) && AfterTick(s, r, x) && (x in r.ready ==> x in s.ready || x in s.sleep)
    ensures Parked(r.Get(x)) == Parked(s.Get(x))
  {
    InReady(s, x);
  }

  lemma TickMoves(s: Sched)
    requires Calm(s) && s.curr == NextRun(s)
    ensures Moved(s, Tick(s), 0, 0)
  {
    hide *;
    CalmSleepers(s);
    TickShape(s);
    var r := Tick(s);
    forall x
      ensures InSched(r, x) == InSched(s, x) + if x == 0 then 0 else 0
    {
      InReady(s, x);
      InReady(r, x);
      RotatedTimes(s, x);
      DueCount(s.sleep, s, x);
      ConcatTimes(Rotated(s), Due(s.sleep, s), x);
      AfterTickParked(s, r, x);
    }
    MakeMoved(s, r, 0, 0);
  }

  lemma TickTimes(s: Sched, started: set<nat>)
    requires Calm(s) && s.curr == NextRun(s) && TimesOk(s, started)
    ensures TimesOk(Tick(s), started)
  {
    hide Tick, Calm, InSched, Sched.Get, Rotated;
    CalmSleepers(s);
    TickShape(s);
    var r := Tick(s);
    forall i | 0 <= i < |r.sleep|
      ensures r.Get(r.sleep[i]).sleepTicks >= 1
    {
      var x := r.sleep[i];
      DueCount(s.sleep, s, x);
      assert AfterTick(s, r, x);
    }
    assert forall x :: AfterTick(s, r, x) && SliceOk(s.Get(x)) ==> SliceOk(r.Get(x));
  }
}
