/** The invariant holds in every reachable state. */
module KernelInv {
  import opened Bits
  import opened SchedSpec
  import opened IpcSpec
  import opened Kernel
  import opened KernelSteps

  lemma InvParts(s: Sys)
    requires Inv(s)
    ensures Calm(s.sch) && s.sch.curr == NextRun(s.sch) && TimesOk(s.sch, s.started) && OnePlace(s)
    ensures forall x :: Places(s, x) == InSched(s.sch, x) + InMutexes(s.mutexes, x) + InSems(s.sems, x)
    ensures forall x :: Places(s, x) == if x in s.started then 1 else 0
  {
    forall x
      ensures InSched(s.sch, x) <= 1 && (x == s.sch.idle ==> InSched(s.sch, x) == 0)
    {
      assert Places(s, x) == if x in s.started then 1 else 0;
    }
  }

  lemma AlikeTimes(s: Sched, r: Sched, started: set<nat>)
    requires TimesOk(s, started) && Alike(s, r)
    ensures TimesOk(r, started) && r.idle == s.idle
  {
  }

  lemma SleptTimes(s: Sched, r: Sched, t: nat, ticks: nat, started: set<nat>)
    requires TimesOk(s, started) && Slept(s, r, t, ticks) && ticks > 0
    ensures TimesOk(r, started) && r.idle == s.idle
  {
    forall i | 0 <= i < |r.sleep|
      ensures r.Get(r.sleep[i]).sleepTicks >= 1
    {
      assert i < |s.sleep| ==> r.sleep[i] == s.sleep[i] && s.Get(s.sleep[i]).sleepTicks >= 1;
    }
  }

  lemma SchedOnly(s: Sys, r: Sched)
    requires Inv(s) && Moved(s.sch, r, 0, 0) && r.idle == s.sch.idle && r.curr == NextRun(r) && TimesOk(r, s.started)
    ensures Inv(s.(sch := r))
  {
    hide InSched, TimesOk;
    forall x
      ensures Places(s.(sch := r), x) == if x in s.started then 1 else 0
    {
      assert Places(s, x) == if x in s.started then 1 else 0;
    }
  }

  lemma MutexStep(s: Sys, m: nat, r: Sched, v: MutexV, t: nat, d: int)
    requires Inv(s) && m < |s.mutexes| && Moved(s.sch, r, t, d) && r.idle == s.sch.idle && r.curr == NextRun(r)
    requires TimesOk(r, s.started)
    requires MutexOk(v) && forall x :: Times(v.waiters, x) == Times(s.mutexes[m].waiters, x) - if x == t then d else 0
    ensures Inv(s.(sch := r, mutexes := s.mutexes[m := v]))
  {
    hide InSched, TimesOk, Times, InMutexes, InSems, MutexOk, SemOk;
    var s' := s.(sch := r, mutexes := s.mutexes[m := v]);
    forall x
      ensures Places(s', x) == if x in s.started then 1 else 0
    {
      assert Places(s, x) == if x in s.started then 1 else 0;
      InMutexesAt(s.mutexes, m, v, x);
    }
  }

  lemma SemStep(s: Sys, k: nat, r: Sched, v: SemV, t: nat, d: int)
    requires Inv(s) && k < |s.sems| && Moved(s.sch, r, t, d) && r.idle == s.sch.idle && r.curr == NextRun(r)
    requires TimesOk(r, s.started)
    requires SemOk(v) && forall x :: Times(v.waiters, x) == Times(s.sems[k].waiters, x) - if x == t then d else 0
    ensures Inv(s.(sch := r, sems := s.sems[k := v]))
  {
    hide InSched, TimesOk, Times, InMutexes, InSems, MutexOk, SemOk;
    var s' := s.(sch := r, sems := s.sems[k := v]);
    forall x
      ensures Places(s', x) == if x in s.started then 1 else 0
    {
      assert Places(s, x) == if x in s.started then 1 else 0;
      InSemsAt(s.sems, k, v, x);
    }
  }

  lemma Same(s: Sched)
    ensures Moved(s, s, 0, 0) && Alike(s, s)
  {
  }

  /** A waiter of one mutex or semaphore is in no place of the scheduler and waits nowhere twice. */
  lemma MutexWaiters(s: Sys, m: nat)
    requires Inv(s) && m < |s.mutexes|
    ensures forall i :: 0 <= i < |s.mutexes[m].waiters| ==>
              s.mutexes[m].waiters[i] in s.started && s.mutexes[m].waiters[i] != s.sch.idle
              && InSched(s.sch, s.mutexes[m].waiters[i]) == 0
    ensures forall i, j :: 0 <= i < j < |s.mutexes[m].waiters| ==> s.mutexes[m].waiters[i] != s.mutexes[m].waiters[j]
  {
    hide InSched, TimesOk;
    var w := s.mutexes[m].waiters;
    forall x
      ensures Times(w, x) <= 1 && (x in w ==> x in s.started && InSched(s.sch, x) == 0)
    {
      InMutexesAt(s.mutexes, m, s.mutexes[m], x);
      TimesIn(w, x);
      assert Places(s, x) == if x in s.started then 1 else 0;
    }
    Distinct(w);
  }

  lemma SemWaiters(s: Sys, k: nat)
    requires Inv(s) && k < |s.sems|
    ensures forall i :: 0 <= i < |s.sems[k].waiters| ==>
              s.sems[k].waiters[i] in s.started && s.sems[k].waiters[i] != s.sch.idle
              && InSched(s.sch, s.sems[k].waiters[i]) == 0
    ensures forall i, j :: 0 <= i < j < |s.sems[k].waiters| ==> s.sems[k].waiters[i] != s.sems[k].waiters[j]
  {
    hide InSched, TimesOk;
    var w := s.sems[k].waiters;
    forall x
      ensures Times(w, x) <= 1 && (x in w ==> x in s.started && InSched(s.sch, x) == 0)
    {
      InSemsAt(s.sems, k, s.sems[k], x);
      TimesIn(w, x);
      assert Places(s, x) == if x in s.started then 1 else 0;
    }
    Distinct(w);
  }

  lemma MutexIsOk(s: Sys, m: nat)
    requires Inv(s) && m < |s.mutexes|
    ensures MutexOk(s.mutexes[m])
  {
  }

  lemma SemIsOk(s: Sys, k: nat)
    requires Inv(s) && k < |s.sems|
    ensures SemOk(s.sems[k])
  {
  }

  lemma WaitersSnoc(q: seq<nat>, t: nat)
    ensures forall x :: Times(q + [t], x) == Times(q, x) - if x == t then -1 else 0
  {
    forall x {
      TimesSnoc(q, t, x);
    }
  }

  lemma WaitersTail(q: seq<nat>)
    requires q != []
    ensures forall x :: Times(q[1..], x) == Times(q, x) - if x == q[0] then 1 else 0
  {
    forall x {
      TimesTail(q, x);
    }
  }

  lemma LockKeeps(s: Sys, m: nat)
    requires Inv(s) && Enabled(s, LockOp(m))
    ensures Inv(Step(s, LockOp(m)))
  {
    hide Inv, Moved, Alike, TimesOk, Calm, Lock, Dispatch, SetBlock, Times;
    InvParts(s);
    MutexIsOk(s, m);
    var v, c := s.mutexes[m], s.sch.curr;
    LockParts(s.sch, v);
    Same(s.sch);
    var r := Lock(s.sch, v);
    if v.count == 0 || v.owner == Some(c) {
      MutexStep(s, m, r.0, r.1, 0, 0);
    } else {
      BlockCurr(s.sch);
      AlikeTimes(s.sch, r.0, s.started);
      WaitersSnoc(v.waiters, c);
      MutexStep(s, m, r.0, r.1, c, -1);
    }
  }

  lemma UnlockKeeps(s: Sys, m: nat)
    requires Inv(s) && Enabled(s, UnlockOp(m))
    ensures Inv(Step(s, UnlockOp(m)))
  {
    hide Inv, Moved, Alike, TimesOk, Calm, Unlock, Dispatch, SetReady, Times, InSched;
    InvParts(s);
    MutexIsOk(s, m);
    var v := s.mutexes[m];
    LockParts(s.sch, v);
    Same(s.sch);
    var r := Unlock(s.sch, v);
    if v.owner != Some(s.sch.curr) || v.count != 1 || v.waiters == [] {
      MutexStep(s, m, r.0, r.1, 0, 0);
    } else {
      MutexWaiters(s, m);
      var t := v.waiters[0];
      WakeOne(s.sch, t);
      AlikeTimes(s.sch, r.0, s.started);
      WaitersTail(v.waiters);
      MutexStep(s, m, r.0, r.1, t, 1);
    }
  }

  lemma WaitKeeps(s: Sys, k: nat)
    requires Inv(s) && Enabled(s, WaitOp(k))
    ensures Inv(Step(s, WaitOp(k)))
  {
    hide Inv, Moved, Alike, TimesOk, Calm, Wait, Dispatch, SetBlock, Times;
    InvParts(s);
    SemIsOk(s, k);
    var v, c := s.sems[k], s.sch.curr;
    WaitParts(s.sch, v);
    Same(s.sch);
    var r := Wait(s.sch, v);
    if v.count > 0 {
      SemStep(s, k, r.0, r.1, 0, 0);
    } else {
      BlockCurr(s.sch);
      AlikeTimes(s.sch, r.0, s.started);
      WaitersSnoc(v.waiters, c);
      SemStep(s, k, r.0, r.1, c, -1);
    }
  }

  lemma NotifyKeeps(s: Sys, k: nat)
    requires Inv(s) && Enabled(s, NotifyOp(k))
    ensures Inv(Step(s, NotifyOp(k)))
  {
    hide Inv, Moved, Alike, TimesOk, Calm, Notify, Dispatch, SetReady, Times, InSched;
    InvParts(s);
    SemIsOk(s, k);
    var v := s.sems[k];
    WaitParts(s.sch, v);
    Same(s.sch);
    var r := Notify(s.sch, v);
    if v.waiters == [] {
      SemStep(s, k, r.0, r.1, 0, 0);
    } else {
      SemWaiters(s, k);
      var t := v.waiters[0];
      WakeOne(s.sch, t);
      AlikeTimes(s.sch, r.0, s.started);
      WaitersTail(v.waiters);
      SemStep(s, k, r.0, r.1, t, 1);
    }
  }

  /** A task is created or reaped: it gains or loses its one place. */
  lemma StartedStep(s: Sys, r: Sched, t: nat, d: int, started: set<nat>)
    requires Inv(s) && Moved(s.sch, r, t, d) && r.idle == s.sch.idle && r.curr == NextRun(r) && t != r.idle
    requires TimesOk(r, started) && (d == 1 || d == -1) && (t in s.started <==> d == -1)
    requires started == if d == 1 then s.started + {t} else s.started - {t}
    ensures Inv(s.(sch := r, started := started))
  {
    hide InSched, TimesOk;
    var s' := s.(sch := r, started := started);
    forall x
      ensures Places(s', x) == if x in started then 1 else 0
    {
      assert Places(s, x) == if x in s.started then 1 else 0;
    }
  }

  lemma FreshTimes(s: Sched, r: Sched, t: nat, v: TaskV, started: set<nat>)
    requires TimesOk(s, started) && t != s.idle && r.idle == s.idle && r.sleep == s.sleep && t !in s.sleep
    requires r.Get(t) == v && forall x :: x != t ==> r.Get(x) == s.Get(x)
    ensures TimesOk(r, started - {t}) && (SliceOk(v) ==> TimesOk(r, started + {t}))
  {
  }

  lemma StartKeeps(s: Sys, t: nat)
    requires Inv(s) && Enabled(s, StartOp(t))
    ensures Inv(Step(s, StartOp(t)))
  {
    hide Inv, Moved, Alike, TimesOk, Calm, SetReady, Times, InSched, Parked, Sched.Get;
    InvParts(s);
    InReady(s.sch, t);
    var a := s.sch.Put(t, NEW_TASK);
    var r, v := SetReady(a, t), NEW_TASK.(state := Ready);
    PutParts(s.sch, t, NEW_TASK);
    NewTaskIs(a, t);
    SetReadyParts(a, t);
    assert r.tasks == s.sch.tasks[t := v];
    PutMoves(s.sch, r, t, v, true);
    CurrReady(s.sch);
    FreshTimes(s.sch, r, t, v, s.started);
    StartedStep(s, r, t, 1, s.started + {t});
  }

  lemma NewTaskIs(a: Sched, t: nat)
    ensures t in a.tasks && a.tasks[t] == NEW_TASK ==> a.Get(t).(state := Ready) == NEW_TASK.(state := Ready)
    ensures SliceOk(NEW_TASK.(state := Ready)) && Parked(NEW_TASK.(state := Ready)) == 0
  {
  }

  lemma ReapKeeps(s: Sys, t: nat)
    requires Inv(s) && Enabled(s, ReapOp(t))
    ensures Inv(Step(s, ReapOp(t)))
  {
    hide Inv, Moved, Alike, TimesOk, Calm, Times, InSched, Sched.Get;
    InvParts(s);
    InReady(s.sch, t);
    CurrReady(s.sch);
    CalmIs(s.sch, t);
    ZombieStarted(s, t);
    var v := TaskV(Created, 0, 0, 0);
    var r := s.sch.Put(t, v);
    PutParts(s.sch, t, v);
    PutMoves(s.sch, r, t, v, false);
    FreshTimes(s.sch, r, t, v, s.started);
    StartedStep(s, r, t, -1, s.started - {t});
  }

  lemma ZombieStarted(s: Sys, t: nat)
    requires Inv(s) && s.sch.Get(t).state == Zombie
    ensures t in s.started && t != s.sch.idle
  {
    assert Places(s, t) >= 1;
  }

  lemma SleepTicksPositive(ms: nat)
    requires 0 < ms <= TWO_32 - 10
    ensures SleepTicks(ms) > 0
  {
  }

  /** Every step keeps the invariant. */
  lemma StepKeeps(s: Sys, op: Op)
    requires Inv(s) && Enabled(s, op)
    ensures Inv(Step(s, op))
  {
    match op
    case LockOp(m) => LockKeeps(s, m);
    case UnlockOp(m) => UnlockKeeps(s, m);
    case WaitOp(k) => WaitKeeps(s, k);
    case NotifyOp(k) => NotifyKeeps(s, k);
    case StartOp(t) => StartKeeps(s, t);
    case ReapOp(t) => ReapKeeps(s, t);
    case _ => SchedStepKeeps(s, op);
  }

  lemma SchedStepKeeps(s: Sys, op: Op)
    requires Inv(s) && Enabled(s, op)
    requires op.TickOp? || op.YieldOp? || op.SleepOp? || op.WaitChildOp? || op.ExitOp?
    ensures Inv(Step(s, op)) && Step(s, op) == s.(sch := Step(s, op).sch)
    ensures Calm(s.sch) && Moved(s.sch, Step(s, op).sch, 0, 0)
  {
    hide Inv, Moved, Alike, TimesOk, Calm, Slept, Tick, Yield, SleepFor, WaitForChild, Exit, SleepTicks, Sched.Get;
    InvParts(s);
    var r := Step(s, op).sch;
    match op {
      case TickOp =>
        TickMoves(s.sch);
        TickTimes(s.sch, s.started);
        TickNext(s.sch);
      case YieldOp =>
        YieldMoves(s.sch);
        AlikeTimes(s.sch, r, s.started);
      case SleepOp(ms) =>
        SleepTicksPositive(ms);
        SleepMoves(s.sch, ms);
        SleptTimes(s.sch, r, s.sch.curr, SleepTicks(ms), s.started);
      case WaitChildOp =>
        WaitChildMoves(s.sch);
        AlikeTimes(s.sch, r, s.started);
      case ExitOp(parent, first, moveChild) =>
        ExitMoves(s.sch, parent, first, moveChild);
        AlikeTimes(s.sch, r, s.started);
    }
    SchedOnly(s, r);
  }

  lemma TickNext(s: Sched)
    requires Calm(s) && s.curr == NextRun(s)
    ensures Tick(s).curr == NextRun(Tick(s)) && Tick(s).idle == s.idle
  {
    hide Tick, Calm;
    CalmSleepers(s);
    KernelTick.TickShape(s);
  }

  lemma {:induction false} NoneWaiting(m: seq<MutexV>, k: seq<SemV>, x: nat)
    requires (forall i :: 0 <= i < |m| ==> m[i].waiters == []) && forall i :: 0 <= i < |k| ==> k[i].waiters == []
    ensures InMutexes(m, x) == 0 && InSems(k, x) == 0
    decreases |m|, |k|
  {
    if m != [] {
      NoneWaiting(m[1..], k, x);
    } else if k != [] {
      NoneWaiting(m, k[1..], x);
    }
  }

  lemma BootInv(ids: set<nat>, first: nat, idle: nat, mutexes: nat, counts: seq<nat>)
    requires first != idle
    ensures Inv(Boot(ids, first, idle, mutexes, counts))
  {
    var s := Boot(ids, first, idle, mutexes, counts);
    forall x
      ensures Places(s, x) == if x in s.started then 1 else 0
    {
      NoneWaiting(s.mutexes, s.sems, x);
    }
  }
}
