/** Bounded waiting for the processor, and exact sleeping. */
module KernelFair {
  import opened IntrusiveList
  import opened SchedSpec
  import opened IpcSpec
  import opened Kernel
  import opened KernelTick
  import opened KernelSteps
  import opened KernelInv
  import opened KernelRuns

  /** The first drop tasks leave the ready queue and extra joins at its end; the sleep queue only
      grows at its end; slices of the ready and ticks of the sleeping stay. */
  ghost predicate Shifted(s: Sched, r: Sched, drop: nat, extra: seq<nat>) {
    && drop <= 1 && drop <= |s.ready| && r.ready == s.ready[drop..] + extra
    && s.sleep <= r.sleep
    && (forall x :: x in s.ready ==> r.Get(x).sliceTicks == s.Get(x).sliceTicks)
    && (forall x :: x in s.sleep ==> r.Get(x).sleepTicks == s.Get(x).sleepTicks)
  }

  lemma HeadBlocked(s: Sched)
    requires s.curr == NextRun(s) && s.curr != s.idle
    ensures SetBlock(s, s.curr).ready == s.ready[1..] && |s.ready| > 0
  {
    WithoutAt(s.ready, 0);
    assert s.ready[..0] + s.ready[1..] == s.ready[1..];
  }

  lemma AlikeShifted(s: Sched, r: Sched, drop: nat, extra: seq<nat>)
    requires Alike(s, r) && drop <= 1 && drop <= |s.ready| && r.ready == s.ready[drop..] + extra
    ensures Shifted(s, r, drop, extra)
  {
  }

  lemma BlockShift(s: Sched)
    requires Calm(s) && s.curr == NextRun(s) && s.curr != s.idle
    ensures Shifted(s, Dispatch(SetBlock(s, s.curr)), 1, [])
  {
    hide Calm, Alike, Moved, Shifted, SetBlock, Dispatch;
    BlockCurr(s);
    HeadBlocked(s);
    DispatchParts(SetBlock(s, s.curr));
    assert s.ready[1..] + [] == s.ready[1..];
    AlikeShifted(s, Dispatch(SetBlock(s, s.curr)), 1, []);
  }

  lemma WakeShift(s: Sched, t: nat)
    requires Calm(s) && t != s.idle && InSched(s, t) == 0
    ensures Shifted(s, Dispatch(SetReady(s, t)), 0, [t])
  {
    hide Calm, Alike, Moved, Shifted, SetReady, Dispatch;
    WakeOne(s, t);
    SetReadyParts(s, t);
    DispatchParts(SetReady(s, t));
    AlikeShifted(s, Dispatch(SetReady(s, t)), 0, [t]);
  }

  lemma YieldShift(s: Sched) returns (drop: nat, extra: seq<nat>)
    requires Calm(s) && s.curr == NextRun(s) && s.curr != s.idle
    ensures Shifted(s, Yield(s), drop, extra)
  {
    hide Calm, Alike, Moved, Shifted, SetBlock, SetReady, Dispatch, Yield;
    YieldMoves(s);
    TopParts(s, 0);
    if |s.ready| > 1 {
      drop, extra := 1, [s.curr];
      var a := SetBlock(s, s.curr);
      HeadBlocked(s);
      SetBlockParts(s, s.curr);
      SetReadyParts(a, s.curr);
      DispatchParts(SetReady(a, s.curr));
      AlikeShifted(s, Yield(s), drop, extra);
    } else {
      drop, extra := 0, [];
      assert s.ready == s.ready[0..] + [];
      AlikeShifted(s, s, drop, extra);
    }
  }

  lemma WaitChildShift(s: Sched)
    requires Calm(s) && s.curr == NextRun(s) && s.curr != s.idle
    ensures Shifted(s, WaitForChild(s), 1, [])
  {
    hide Calm, Alike, Moved, Shifted, SetBlock, Dispatch, WaitForChild;
    WaitChildMoves(s);
    TopParts(s, 0);
    HeadBlocked(s);
    var a := SetBlock(s, s.curr);
    var v := a.Get(s.curr).(state := Waiting);
    PutParts(a, s.curr, v);
    DispatchParts(a.Put(s.curr, v));
    assert s.ready[1..] + [] == s.ready[1..];
    AlikeShifted(s, WaitForChild(s), 1, []);
  }

  lemma ExitShift(s: Sched, parent: nat, first: nat, moveChild: bool) returns (extra: seq<nat>)
    requires Calm(s) && s.curr == NextRun(s) && s.curr != s.idle
    ensures Shifted(s, Exit(s, parent, first, moveChild), 1, extra)
  {
    hide Calm, Alike, Moved, Shifted, SetBlock, Dispatch, WakeForExit, Exit;
    ExitMoves(s, parent, first, moveChild);
    ExitParts(s, parent, first, moveChild);
    WakeExitMoves(s, parent, first, moveChild);
    AlikeIdle(s, WakeForExit(s, parent, first, moveChild));
    var a := WakeForExit(s, parent, first, moveChild);
    var v := a.Get(s.curr).(state := Zombie);
    extra := a.ready[|s.ready|..];
    PutParts(a, s.curr, v);
    PutBlock(a, s.curr, v);
    SameHead(s, a);
    HeadBlocked(a.Put(s.curr, v));
    DispatchParts(SetBlock(a.Put(s.curr, v), s.curr));
    assert a.ready[1..] == s.ready[1..] + extra;
    AlikeShifted(s, Exit(s, parent, first, moveChild), 1, extra);
  }

  lemma SameHead(s: Sched, a: Sched)
    requires s.curr == NextRun(s) && s.curr != s.idle && s.ready <= a.ready && a.idle == s.idle && a.curr == s.curr
    ensures |s.ready| > 0
    ensures forall v :: a.Put(s.curr, v).curr == NextRun(a.Put(s.curr, v)) && a.Put(s.curr, v).idle != s.curr
  {
  }

  lemma SleepShift(s: Sched, ms: nat)
    requires Calm(s) && s.curr == NextRun(s) && s.curr != s.idle && SleepTicks(ms) > 0
    ensures Shifted(s, SleepFor(s, ms), 1, [])
    ensures SleepFor(s, ms).sleep == s.sleep + [s.curr] && SleepFor(s, ms).Get(s.curr).sleepTicks == SleepTicks(ms)
  {
    hide Calm, Moved, SetBlock, SetSleep, Dispatch, SleepFor, SleepTicks, Sched.Get;
    SleepMoves(s, ms);
    TopParts(s, ms);
    CurrReady(s);
    HeadBlocked(s);
    SetSleepParts(SetBlock(s, s.curr), s.curr, SleepTicks(ms));
    DispatchParts(SetSleep(SetBlock(s, s.curr), s.curr, SleepTicks(ms)));
    assert s.ready[1..] + [] == s.ready[1..];
  }

  lemma SameShift(s: Sched)
    ensures Shifted(s, s, 0, [])
  {
    assert s.ready[0..] + [] == s.ready;
  }

  lemma PutShift(s: Sched, r: Sched, t: nat, v: TaskV, extra: seq<nat>)
    requires r.tasks == s.tasks[t := v] && r.sleep == s.sleep && r.ready == s.ready + extra && t !in s.ready
    requires t !in s.sleep
    ensures Shifted(s, r, 0, extra)
  {
    assert s.ready[0..] + extra == r.ready;
  }

  /** Every step but the tick takes at most the head out of the ready queue and adds at the end. */
  lemma StepShift(s: Sys, op: Op) returns (drop: nat, extra: seq<nat>)
    requires Inv(s) && Enabled(s, op) && !op.TickOp?
    ensures Shifted(s.sch, Step(s, op).sch, drop, extra)
  {
    hide Inv, Calm, Shifted, SetBlock, SetReady, Dispatch, Yield, SleepFor, WaitForChild, Exit, SleepTicks, InSched,
      Sched.Get, Lock, Unlock, Wait, Notify;
    InvParts(s);
    SameShift(s.sch);
    drop, extra := 0, [];
    match op {
      case YieldOp => drop, extra := YieldShift(s.sch);
      case SleepOp(ms) => SleepTicksPositive(ms); SleepShift(s.sch, ms); drop := 1;
      case WaitChildOp => WaitChildShift(s.sch); drop := 1;
      case ExitOp(parent, first, moveChild) => extra := ExitShift(s.sch, parent, first, moveChild); drop := 1;
      case LockOp(m) => drop := LockShift(s, m);
      case UnlockOp(m) => extra := UnlockShift(s, m);
      case WaitOp(k) => drop := WaitShift(s, k);
      case NotifyOp(k) => extra := NotifyShift(s, k);
      case StartOp(t) => extra := [t]; StartShift(s, t);
      case ReapOp(t) => ReapShift(s, t);
    }
  }

  lemma LockShift(s: Sys, m: nat) returns (drop: nat)
    requires Inv(s) && Enabled(s, LockOp(m))
    ensures Shifted(s.sch, Lock(s.sch, s.mutexes[m]).0, drop, [])
  {
    hide Inv, Calm, Shifted, SetBlock, Dispatch, Lock;
    InvParts(s);
    SameShift(s.sch);
    LockParts(s.sch, s.mutexes[m]);
    drop := if s.mutexes[m].count == 0 || s.mutexes[m].owner == Some(s.sch.curr) then 0 else 1;
    BlockShift(s.sch);
  }

  lemma WaitShift(s: Sys, k: nat) returns (drop: nat)
    requires Inv(s) && Enabled(s, WaitOp(k))
    ensures Shifted(s.sch, Wait(s.sch, s.sems[k]).0, drop, [])
  {
    hide Inv, Calm, Shifted, SetBlock, Dispatch, Wait;
    InvParts(s);
    SameShift(s.sch);
    WaitParts(s.sch, s.sems[k]);
    drop := if s.sems[k].count > 0 then 0 else 1;
    BlockShift(s.sch);
  }

  lemma UnlockShift(s: Sys, m: nat) returns (extra: seq<nat>)
    requires Inv(s) && Enabled(s, UnlockOp(m))
    ensures Shifted(s.sch, Unlock(s.sch, s.mutexes[m]).0, 0, extra)
  {
    hide Inv, Calm, Shifted, SetReady, Dispatch, Unlock, InSched;
    InvParts(s);
    SameShift(s.sch);
    LockParts(s.sch, s.mutexes[m]);
    MutexWaiters(s, m);
    var v := s.mutexes[m];
    extra := [];
    if v.owner == Some(s.sch.curr) && v.count == 1 && v.waiters != [] {
      extra := [v.waiters[0]];
      WakeShift(s.sch, v.waiters[0]);
    }
  }

  lemma NotifyShift(s: Sys, k: nat) returns (extra: seq<nat>)
    requires Inv(s) && Enabled(s, NotifyOp(k))
    ensures Shifted(s.sch, Notify(s.sch, s.sems[k]).0, 0, extra)
  {
    hide Inv, Calm, Shifted, SetReady, Dispatch, Notify, InSched;
    InvParts(s);
    SameShift(s.sch);
    WaitParts(s.sch, s.sems[k]);
    SemWaiters(s, k);
    extra := [];
    if s.sems[k].waiters != [] {
      extra := [s.sems[k].waiters[0]];
      WakeShift(s.sch, s.sems[k].waiters[0]);
    }
  }

  lemma StartShift(s: Sys, t: nat)
    requires Inv(s) && Enabled(s, StartOp(t))
    ensures Shifted(s.sch, Step(s, StartOp(t)).sch, 0, [t])
  {
    hide Inv, Shifted, SetReady, InSched;
    InvParts(s);
    InReady(s.sch, t);
    var a := s.sch.Put(t, NEW_TASK);
    SetReadyParts(a, t);
    PutShift(s.sch, SetReady(a, t), t, a.Get(t).(state := Ready), [t]);
  }

  lemma ReapShift(s: Sys, t: nat)
    requires Inv(s) && Enabled(s, ReapOp(t))
    ensures Shifted(s.sch, Step(s, ReapOp(t)).sch, 0, [])
  {
    hide Inv, Shifted, InSched, Calm;
    InvParts(s);
    InReady(s.sch, t);
    CalmIs(s.sch, t);
    assert s.sch.ready + [] == s.sch.ready;
    PutShift(s.sch, s.sch.Put(t, TaskV(Created, 0, 0, 0)), t, TaskV(Created, 0, 0, 0), []);
  }

  // ---------------------------------------------------------------- bounded waiting

  /** The ticks left in the slices of the k tasks ahead. */
  function Rank(s: Sched, k: nat): int
    requires k <= |s.ready|
  {
    if k == 0 then 0 else Rank(s, k - 1) + s.Get(s.ready[k - 1]).sliceTicks
  }

  lemma {:induction false} RankBound(s: Sys, k: nat)
    requires Inv(s) && k <= |s.sch.ready|
    ensures k <= Rank(s.sch, k) <= 10 * k
    decreases k
  {
    if k > 0 {
      RankBound(s, k - 1);
      ReadyStarted(s, k - 1);
    }
  }

  lemma ReadyStarted(s: Sys, i: nat)
    requires Inv(s) && i < |s.sch.ready|
    ensures s.sch.ready[i] in s.started && SliceOk(s.sch.Get(s.sch.ready[i])) && s.sch.ready[i] !in s.sch.sleep
    ensures s.sch.ready[i] != s.sch.idle
  {
    var x := s.sch.ready[i];
    InReady(s.sch, x);
    assert Places(s, x) == if x in s.started then 1 else 0;
  }

  lemma {:induction false} RankShift(s: Sched, r: Sched, drop: nat, k: nat)
    requires drop <= k <= |s.ready| && k - drop <= |r.ready|
    requires forall i :: drop <= i < k ==>
               r.ready[i - drop] == s.ready[i] && r.Get(s.ready[i]).sliceTicks == s.Get(s.ready[i]).sliceTicks
    ensures Rank(r, k - drop) == Rank(s, k) - Rank(s, drop)
    decreases k
  {
    if k > drop {
      RankShift(s, r, drop, k - 1);
    }
  }

  lemma {:induction false} RankFirst(s: Sched, r: Sched, k: nat)
    requires 0 < k <= |s.ready| && k <= |r.ready|
    requires r.ready[0] == s.ready[0] && r.Get(s.ready[0]).sliceTicks == s.Get(s.ready[0]).sliceTicks - 1
    requires forall i :: 1 <= i < k ==>
               r.ready[i] == s.ready[i] && r.Get(s.ready[i]).sliceTicks == s.Get(s.ready[i]).sliceTicks
    ensures Rank(r, k) == Rank(s, k) - 1
    decreases k
  {
    if k > 1 {
      RankFirst(s, r, k - 1);
    }
  }

  lemma HeadRank(s: Sys)
    requires Inv(s) && |s.sch.ready| > 0
    ensures Rank(s.sch, 1) == s.sch.Get(s.sch.curr).sliceTicks && s.sch.curr == s.sch.ready[0] && Rank(s.sch, 1) >= 1
    ensures s.sch.curr != s.sch.idle
  {
    ReadyStarted(s, 0);
    assert Rank(s.sch, 1) == Rank(s.sch, 0) + s.sch.Get(s.sch.ready[0]).sliceTicks;
  }

  /** The rank of a ready task that is not current drops by one on a tick. */
  lemma TickRank(s: Sys, k: nat) returns (k': nat)
    requires Inv(s) && 0 < k < |s.sch.ready|
    ensures var r := Tick(s.sch);
            k' < |r.ready| && k' <= k && r.ready[k'] == s.sch.ready[k] && Rank(r, k') == Rank(s.sch, k) - 1
  {
    hide Inv, Calm, Tick, InSched, Rank, Sched.Get, Due, Later;
    InvParts(s);
    CalmSleepers(s.sch);
    TickShape(s.sch);
    HeadRank(s);
    UniqueTimes(s);
    var q, r := s.sch, Tick(s.sch);
    k' := if q.Get(q.curr).sliceTicks == 1 then k - 1 else k;
    forall i | 0 <= i < |q.ready|
      ensures r.Get(q.ready[i]).sliceTicks ==
              if i > 0 then q.Get(q.ready[i]).sliceTicks
              else if q.Get(q.ready[0]).sliceTicks == 1 then q.Get(q.ready[0]).timeTicks
              else q.Get(q.ready[0]).sliceTicks - 1
    {
      assert AfterTick(q, r, q.ready[i]);
    }
    if q.Get(q.curr).sliceTicks == 1 {
      RankShift(q, r, 1, k);
    } else {
      RankFirst(q, r, k);
    }
  }

  /** The rank of a ready task that is not current never rises on any other step. */
  lemma StepRank(s: Sys, op: Op, k: nat) returns (k': nat)
    requires Inv(s) && Enabled(s, op) && 0 < k < |s.sch.ready|
    ensures var r := Step(s, op).sch;
            k' < |r.ready| && k' <= k && r.ready[k'] == s.sch.ready[k]
            && Rank(r, k') <= Rank(s.sch, k) - if op.TickOp? then 1 else 0
  {
    hide *;
    if op.TickOp? {
      k' := TickRank(s, k);
      TickStep(s, op);
    } else {
      var drop, extra := StepShift(s, op);
      HeadRank(s);
      RankZero(s.sch);
      ShiftedRank(s.sch, Step(s, op).sch, drop, extra, k);
      k' := k - drop;
    }
  }

  lemma TickStep(s: Sys, op: Op)
    requires op.TickOp?
    ensures Enabled(s, op) && Step(s, op).sch == Tick(s.sch)
  {
  }

  lemma ShiftedRank(s: Sched, r: Sched, drop: nat, extra: seq<nat>, k: nat)
    requires Shifted(s, r, drop, extra) && 0 < k < |s.ready|
    ensures drop <= 1 && k - drop < |r.ready| && r.ready[k - drop] == s.ready[k]
    ensures Rank(r, k - drop) == Rank(s, k) - Rank(s, drop)
  {
    hide Rank, Sched.Get;
    RankShift(s, r, drop, k);
  }

  lemma RankZero(s: Sched)
    ensures Rank(s, 0) == 0
  {
  }

  /** Bounded waiting: a task at index k of the ready queue becomes current within Rank ticks, and
      Rank <= 10 k, whatever the other tasks do meanwhile. */
  lemma {:induction false} BoundedWait(s: Sys, ops: seq<Op>, k: nat) returns (n: nat)
    requires Inv(s) && Runs(s, ops) && k < |s.sch.ready| && Ticks(ops) >= Rank(s.sch, k)
    ensures Rank(s.sch, k) <= 10 * k
    ensures n <= |ops| && Runs(s, ops[..n]) && Final(s, ops[..n]).sch.curr == s.sch.ready[k]
    ensures Ticks(ops[..n]) <= Rank(s.sch, k)
    decreases |ops|
  {
    hide Inv, Enabled, Step, Rank, Calm, Sched.Get;
    RankBound(s, k);
    if k == 0 {
      n := 0;
      RankZero(s.sch);
      HeadRank(s);
    } else {
      var k' := StepRank(s, ops[0], k);
      StepKeeps(s, ops[0]);
      n := BoundedWait(Step(s, ops[0]), ops[1..], k');
      assert ops[..n + 1][1..] == ops[1..][..n] && ops[..n + 1][0] == ops[0];
      n := n + 1;
    }
  }

  // ---------------------------------------------------------------- exact sleep

  lemma StepSleeper(s: Sys, op: Op, t: nat)
    requires Inv(s) && Enabled(s, op) && t in s.sch.sleep
    ensures var r, n := Step(s, op).sch, s.sch.Get(t).sleepTicks;
            && n >= 1
            && (!op.TickOp? ==> t in r.sleep && r.Get(t).sleepTicks == n)
            && (op.TickOp? && n > 1 ==> t in r.sleep && r.Get(t).sleepTicks == n - 1)
            && (op.TickOp? && n == 1 ==> t !in r.sleep && t in r.ready)
  {
    hide Inv, Calm, Tick, InSched, Sched.Get, Due, Later, Rotated;
    InvParts(s);
    SleeperTicks(s, t);
    if op.TickOp? {
      CalmSleepers(s.sch);
      TickShape(s.sch);
      DueCount(s.sch.sleep, s.sch, t);
      assert AfterTick(s.sch, Step(s, op).sch, t);
    } else {
      var drop, extra := StepShift(s, op);
    }
  }

  lemma SleeperTicks(s: Sys, t: nat)
    requires Inv(s) && t in s.sch.sleep
    ensures s.sch.Get(t).sleepTicks >= 1
  {
  }

  /** Over any run a sleeper with n ticks left stays asleep for n - 1 ticks and is ready after the
      n-th. */
  lemma {:induction false} SleepExact(s: Sys, ops: seq<Op>, t: nat)
    requires Inv(s) && Runs(s, ops) && t in s.sch.sleep && Ticks(ops) < s.sch.Get(t).sleepTicks
    ensures var r := Final(s, ops); t in r.sch.sleep && r.sch.Get(t).sleepTicks == s.sch.Get(t).sleepTicks - Ticks(ops)
    decreases |ops|
  {
    hide Inv, Enabled, Step, Sched.Get;
    if ops != [] {
      StepSleeper(s, ops[0], t);
      StepKeeps(s, ops[0]);
      SleepExact(Step(s, ops[0]), ops[1..], t);
    }
  }

  lemma {:induction false} RunsSnoc(s: Sys, ops: seq<Op>, op: Op)
    requires Runs(s, ops + [op])
    ensures Runs(s, ops) && Enabled(Final(s, ops), op) && Final(s, ops + [op]) == Step(Final(s, ops), op)
    ensures Ticks(ops + [op]) == Ticks(ops) + if op.TickOp? then 1 else 0
    decreases |ops|
  {
    hide Enabled, Step;
    if ops == [] {
      assert [] + [op] == [op];
    } else {
      assert (ops + [op])[1..] == ops[1..] + [op];
      RunsSnoc(Step(s, ops[0]), ops[1..], op);
    }
  }

  /** A task that sleeps for ms is asleep until just before the tick number ceil(ms / 10) and ready
      after it. */
  lemma SleepsCeil(s: Sys, ms: nat, ops: seq<Op>)
    requires Inv(s) && Enabled(s, SleepOp(ms)) && Runs(Step(s, SleepOp(ms)), ops + [TickOp])
    requires Ticks(ops) == (ms + 9) / 10 - 1
    ensures var s1 := Step(s, SleepOp(ms));
            && Runs(s1, ops) && s.sch.curr in Final(s1, ops).sch.sleep
            && s.sch.curr in Final(s1, ops + [TickOp]).sch.ready && s.sch.curr !in Final(s1, ops + [TickOp]).sch.sleep
  {
    hide Inv, Tick, Calm, SleepFor, Final, Runs, Sched.Get, SleepTicks;
    InvParts(s);
    SleepTicksPositive(ms);
    SleepTicksZero(ms);
    SleepShift(s.sch, ms);
    var s1 := Step(s, SleepOp(ms));
    StepKeeps(s, SleepOp(ms));
    RunsSnoc(s1, ops, TickOp);
    SleepExact(s1, ops, s.sch.curr);
    RunKeeps(s1, ops);
    StepSleeper(Final(s1, ops), TickOp, s.sch.curr);
  }
}
