/** What each call does to the two queues and to the time slices, in the kernel's own numbers. */
module KernelCalls {
  import opened SchedSpec
  import IpcSpec
  import opened Kernel
  import opened KernelTick
  import opened KernelSteps
  import opened KernelInv
  import opened KernelRuns
  import opened KernelFair

  /** The head of the ready queue runs, or the idle task when it is empty. */
  ghost predicate HeadRuns(q: Sched, r: Sched) {
    && r.curr == (if r.ready == [] then r.idle else r.ready[0])
    && (r.curr != q.curr ==> r.Get(r.curr).state == Running)
  }

  lemma Runnable(s: Sys)
    requires Inv(s) && s.sch.curr != s.sch.idle
    ensures |s.sch.ready| > 0 && s.sch.curr == s.sch.ready[0] && Calm(s.sch) && s.sch.curr == NextRun(s.sch)
    ensures SetBlock(s.sch, s.sch.curr).ready == s.sch.ready[1..]
    ensures s.sch.Get(s.sch.curr).state != Waiting
  {
    hide InSched, SetBlock;
    InvParts(s);
    HeadBlocked(s.sch);
    CurrReady(s.sch);
  }

  /** sys_yeild with two or more ready tasks: the current one goes behind the others and the second one
      runs. */
  lemma YieldQueues(s: Sys)
    requires Inv(s) && Enabled(s, YieldOp)
    ensures var q, r := s.sch, Step(s, YieldOp).sch;
            if |q.ready| >= 2 then
              && r.ready == q.ready[1..] + [q.curr] && r.curr == q.ready[1] && r.sleep == q.sleep
              && r.Get(q.curr).state == Ready && r.Get(q.ready[1]).state == Running
            else r == q
  {
    hide Inv, SetBlock, SetReady, Dispatch, Yield, Calm;
    Runnable(s);
    UniqueTimes(s);
    TopParts(s.sch, 0);
    var q, a := s.sch, SetBlock(s.sch, s.sch.curr);
    SetBlockParts(q, q.curr);
    SetReadyParts(a, q.curr);
    DispatchParts(SetReady(a, q.curr));
  }

  /** sys_sleep: the current task moves from the head of one queue to the end of the other one. */
  lemma SleepQueues(s: Sys, ms: nat)
    requires Inv(s) && Enabled(s, SleepOp(ms))
    ensures var q, r := s.sch, Step(s, SleepOp(ms)).sch;
            && r.ready == q.ready[1..] && r.sleep == q.sleep + [q.curr] && HeadRuns(q, r) && r.idle == q.idle
            && r.Get(q.curr).sleepTicks == (ms + 9) / 10 && r.Get(q.curr).state == State.Sleep
  {
    hide Inv, SetBlock, SetSleep, Dispatch, SleepFor, Calm, SleepTicks;
    Runnable(s);
    UniqueTimes(s);
    SleepTicksPositive(ms);
    SleepTicksZero(ms);
    SleepShift(s.sch, ms);
    TopParts(s.sch, ms);
    var q, a := s.sch, SetBlock(s.sch, s.sch.curr);
    SetBlockParts(q, q.curr);
    SetSleepParts(a, q.curr, SleepTicks(ms));
    DispatchParts(SetSleep(a, q.curr, SleepTicks(ms)));
  }

  /** sys_wait without a finished child. */
  lemma WaitQueues(s: Sys)
    requires Inv(s) && Enabled(s, WaitChildOp)
    ensures var q, r := s.sch, Step(s, WaitChildOp).sch;
            && r.ready == q.ready[1..] && r.sleep == q.sleep && HeadRuns(q, r) && r.idle == q.idle
            && r.Get(q.curr).state == Waiting
  {
    hide Inv, SetBlock, Dispatch, WaitForChild, Calm;
    Runnable(s);
    UniqueTimes(s);
    TopParts(s.sch, 0);
    var q, a := s.sch, SetBlock(s.sch, s.sch.curr);
    SetBlockParts(q, q.curr);
    var v := a.Get(q.curr).(state := Waiting);
    PutParts(a, q.curr, v);
    DispatchParts(a.Put(q.curr, v));
  }

  /** The tasks that sys_exit wakes: the first task if it waits and inherits a finished child from
      somebody else's child, then the parent if it waits. */
  function Woken(q: Sched, parent: nat, first: nat, moveChild: bool): (w: seq<nat>) {
    (if moveChild && parent != first && q.Get(first).state == Waiting then [first] else [])
    + (if q.Get(parent).state == Waiting then [parent] else [])
  }

  lemma WokenWaits(q: Sched, parent: nat, first: nat, moveChild: bool)
    ensures forall x :: x in Woken(q, parent, first, moveChild) ==> q.Get(x).state == Waiting
  {
  }

  lemma WokenQueue(q: Sched, parent: nat, first: nat, moveChild: bool)
    requires Calm(q)
    ensures WakeForExit(q, parent, first, moveChild).ready == q.ready + Woken(q, parent, first, moveChild)
  {
    assert q.Get(q.idle).state != Waiting by {
      InReady(q, q.idle);
    }
  }

  /** sys_exit: those it wakes join the end of the queue that the caller leaves. */
  lemma ExitQueues(s: Sys, parent: nat, first: nat, moveChild: bool)
    requires Inv(s) && Enabled(s, ExitOp(parent, first, moveChild))
    ensures var q, r := s.sch, Step(s, ExitOp(parent, first, moveChild)).sch;
            && r.ready == q.ready[1..] + Woken(q, parent, first, moveChild)
            && r.sleep == q.sleep && HeadRuns(q, r) && r.idle == q.idle
            && r.Get(q.curr).state == Zombie
  {
    hide Inv, Calm, SetBlock, Dispatch, WakeForExit, Exit, Woken, Alike, Moved, Sched.Get;
    Runnable(s);
    UniqueTimes(s);
    var q := s.sch;
    ExitParts(q, parent, first, moveChild);
    WokenQueue(q, parent, first, moveChild);
    ExitMoves(q, parent, first, moveChild);
    WakeExitMoves(q, parent, first, moveChild);
    var a := WakeForExit(q, parent, first, moveChild);
    AlikeIdle(q, a);
    AlikeIdle(q, Exit(q, parent, first, moveChild));
    var v := a.Get(q.curr).(state := Zombie);
    PutParts(a, q.curr, v);
    SameHead(q, a);
    HeadBlocked(a.Put(q.curr, v));
    DispatchParts(SetBlock(a.Put(q.curr, v), q.curr));
    assert a.ready[1..] == q.ready[1..] + Woken(q, parent, first, moveChild);
    WokenWaits(q, parent, first, moveChild);
    assert q.curr !in a.ready[1..] by {
      assert q.curr == q.ready[0];
    }
    BlockKeeps(a, q.curr, v);
    DispatchKeeps(SetBlock(a.Put(q.curr, v), q.curr), q.curr, v);
    DispatchRuns(SetBlock(a.Put(q.curr, v), q.curr));
    SetBlockParts(a.Put(q.curr, v), q.curr);
  }

  lemma BlockKeeps(a: Sched, t: nat, v: TaskV)
    ensures SetBlock(a.Put(t, v), t).Get(t) == v
  {
  }

  lemma DispatchRuns(b: Sched)
    ensures HeadRuns(b, Dispatch(b))
  {
  }

  lemma DispatchKeeps(b: Sched, t: nat, v: TaskV)
    requires b.Get(t) == v && t !in b.ready && t != b.idle
    ensures Dispatch(b).Get(t) == v
  {
  }

  // ---------------------------------------------------------------- time slices

  /** What a task gets to run before the next one: ten ticks, for the first task and for
      every task that is initialised and started. */
  lemma NewSlices(ids: set<nat>, first: nat, idle: nat, mutexes: nat, counts: seq<nat>, s: Sys, t: nat)
    requires first != idle && Enabled(s, StartOp(t))
    ensures var v := Boot(ids, first, idle, mutexes, counts).sch.Get(first); v.sliceTicks == 10 && v.timeTicks == 10
    ensures var v := Step(s, StartOp(t)).sch.Get(t); v.sliceTicks == 10 && v.timeTicks == 10
    ensures t in Step(s, StartOp(t)).sch.ready
  {
  }

  /** The calls that interrupt the current task: the timer, and a notify from an interrupt handler. */
  predicate Interrupts(ops: seq<Op>) {
    forall i :: 0 <= i < |ops| ==> ops[i].TickOp? || ops[i].NotifyOp?
  }

  lemma InterruptStep(s: Sys, op: Op)
    requires Inv(s) && Enabled(s, op) && |s.sch.ready| > 0 && (op.TickOp? || op.NotifyOp?)
    ensures Inv(Step(s, op)) && s.sch.curr == s.sch.ready[0]
    ensures var q, r, n := s.sch, Step(s, op).sch, s.sch.Get(s.sch.ready[0]).sliceTicks;
            && n >= 1
            && (op.NotifyOp? || n > 1 ==> q.ready <= r.ready)
            && (op.TickOp? && n == 1 ==> q.ready[1..] + [q.ready[0]] <= r.ready)
            && r.Get(q.ready[0]).sliceTicks == if op.NotifyOp? then n else if n == 1 then 10 else n - 1
  {
    hide Inv, Calm, Tick, InSched, Sched.Get, Due, Later, Shifted, Step;
    InvParts(s);
    HeadRank(s);
    ReadyStarted(s, 0);
    StepKeeps(s, op);
    var q, r := s.sch, Step(s, op).sch;
    if op.TickOp? {
      TickStep(s, op);
      CalmSleepers(q);
      TickShape(q);
      assert AfterTick(q, r, q.curr);
    } else {
      var extra := NotifyShift(s, op.k);
      ShiftedHead(s, op, extra);
    }
  }

  lemma ShiftedHead(s: Sys, op: Op, extra: seq<nat>)
    requires Enabled(s, op) && op.NotifyOp? && |s.sch.ready| > 0
    requires Shifted(s.sch, IpcSpec.Notify(s.sch, s.sems[op.k]).0, 0, extra)
    ensures var q, r := s.sch, Step(s, op).sch;
            q.ready <= r.ready && r.Get(q.ready[0]).sliceTicks == q.Get(q.ready[0]).sliceTicks
  {
    hide IpcSpec.Notify, Sched.Get;
  }

  /** A current task with n ticks left keeps running for n - 1 ticks. */
  lemma {:induction false} KeepsRunning(s: Sys, ops: seq<Op>)
    requires Inv(s) && Runs(s, ops) && Interrupts(ops) && |s.sch.ready| > 0
    requires Ticks(ops) < s.sch.Get(s.sch.curr).sliceTicks
    ensures var q, r := s.sch, Final(s, ops).sch;
            && Inv(Final(s, ops)) && q.ready <= r.ready && r.curr == q.curr == q.ready[0]
            && r.Get(q.curr).sliceTicks == q.Get(q.curr).sliceTicks - Ticks(ops)
    decreases |ops|
  {
    hide Inv, Enabled, Step, Sched.Get;
    HeadRank(s);
    if ops != [] {
      InterruptStep(s, ops[0]);
      var s1 := Step(s, ops[0]);
      HeadRank(s1);
      assert Interrupts(ops[1..]);
      KeepsRunning(s1, ops[1..]);
    }
  }

  /** A current task with a fresh slice runs through nine ticks; on exactly the tenth the second task of
      the ready queue becomes current and the first one stands behind all that were ready, with a fresh
      slice again. */
  lemma RotatedOnTenth(s: Sys, ops: seq<Op>)
    requires Inv(s) && Runs(s, ops + [TickOp]) && Interrupts(ops) && Ticks(ops) == 9
    requires |s.sch.ready| >= 2 && s.sch.Get(s.sch.curr).sliceTicks == 10
    ensures Runs(s, ops) && s.sch.curr == s.sch.ready[0]
    ensures forall n :: 0 <= n <= |ops| ==> Runs(s, ops[..n]) && Final(s, ops[..n]).sch.curr == s.sch.ready[0]
    ensures var q, r := Final(s, ops).sch, Final(s, ops + [TickOp]).sch;
            && s.sch.ready <= q.ready && r.curr == s.sch.ready[1] && q.ready[1..] + [s.sch.ready[0]] <= r.ready
            && r.Get(s.sch.ready[0]).sliceTicks == 10
  {
    hide Inv, Enabled, Step, Sched.Get, Final, Runs, Ticks;
    RunsSnoc(s, ops, TickOp);
    HeadRank(s);
    forall n | 0 <= n <= |ops|
      ensures Runs(s, ops[..n]) && Final(s, ops[..n]).sch.curr == s.sch.ready[0]
    {
      RunsPrefix(s, ops, n);
      KeepsRunning(s, ops[..n]);
    }
    KeepsRunning(s, ops);
    InterruptStep(Final(s, ops), TickOp);
    HeadRank(Final(s, ops + [TickOp]));
  }

  lemma {:induction false} RunsPrefix(s: Sys, ops: seq<Op>, n: nat)
    requires Runs(s, ops) && n <= |ops|
    ensures Runs(s, ops[..n]) && Ticks(ops[..n]) <= Ticks(ops)
    decreases n
  {
    hide Enabled, Step;
    if n > 0 {
      assert ops[..n][0] == ops[0] && ops[..n][1..] == ops[1..][..n - 1];
      RunsPrefix(Step(s, ops[0]), ops[1..], n - 1);
    }
  }
}
