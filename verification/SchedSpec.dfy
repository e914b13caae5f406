/** The scheduler on values: ready and sleep queues as sequences of task ids. Each function is one
    atomic section of kernel/core/task.c; the class in Scheduler.dfy is proved to compute them on
    the intrusive lists. */
module SchedSpec {
  import opened Bits
  import opened IntrusiveList

  const OS_TICKS_MS: nat := 10
  const TIME_SLICE: nat := 10

  datatype State = Created | Running | Sleep | Ready | Waiting | Zombie

  datatype TaskV = TaskV(state: State, sleepTicks: int, timeTicks: int, sliceTicks: int)

  const NEW_TASK: TaskV := TaskV(Created, 0, TIME_SLICE, TIME_SLICE)

  datatype Sched = Sched(ready: seq<nat>, sleep: seq<nat>, curr: nat, idle: nat, tasks: map<nat, TaskV>)
  {
    /** The fields of a task; a task never initialised reads as a new one. */
    function Get(t: nat): TaskV {
      if t in tasks then tasks[t] else NEW_TASK
    }

    function Put(t: nat, v: TaskV): Sched {
      this.(tasks := tasks[t := v])
    }
  }

  /** task_next_run */
  function NextRun(s: Sched): nat {
    if |s.ready| == 0 then s.idle else s.ready[0]
  }

  /** task_set_ready */
  function SetReady(s: Sched, t: nat): Sched {
    if t == s.idle then s else s.(ready := s.ready + [t]).Put(t, s.Get(t).(state := Ready))
  }

  /** task_set_block */
  ghost function SetBlock(s: Sched, t: nat): Sched {
    if t == s.idle then s else s.(ready := Without(s.ready, t))
  }

  /** task_set_sleep: nothing happens for 0 ticks. */
  function SetSleep(s: Sched, t: nat, ticks: nat): Sched {
    if ticks == 0 then s else s.(sleep := s.sleep + [t]).Put(t, s.Get(t).(sleepTicks := ticks, state := Sleep))
  }

  /** task_set_wakeup */
  ghost function SetWakeup(s: Sched, t: nat): Sched {
    s.(sleep := Without(s.sleep, t))
  }

  /** task_dispatch */
  function Dispatch(s: Sched): Sched {
    var to := NextRun(s);
    if to == s.curr then s else s.(curr := to).Put(to, s.Get(to).(state := Running))
  }

  /** sys_yeild */
  ghost function Yield(s: Sched): Sched {
    if |s.ready| > 1 then Dispatch(SetReady(SetBlock(s, s.curr), s.curr)) else s
  }

  /** The number of ticks sys_sleep computes, in 32-bit arithmetic. */
  function SleepTicks(ms: nat): nat {
    (ms + OS_TICKS_MS - 1) % TWO_32 / OS_TICKS_MS
  }

  /** sys_sleep */
  ghost function SleepFor(s: Sched, ms: nat): Sched {
    Dispatch(SetSleep(SetBlock(s, s.curr), s.curr, SleepTicks(ms)))
  }

  /** The time slice part of task_time_tick. */
  ghost function SliceTick(s: Sched): Sched {
    var v := s.Get(s.curr);
    if v.sliceTicks - 1 == 0 then SetReady(SetBlock(s.Put(s.curr, v.(sliceTicks := v.timeTicks)), s.curr), s.curr)
    else s.Put(s.curr, v.(sliceTicks := v.sliceTicks - 1))
  }

  /** One sleeper of the scan in task_time_tick. */
  ghost function TickSleeper(s: Sched, t: nat): Sched {
    var n := s.Get(t).sleepTicks - 1;
    var s1 := s.Put(t, s.Get(t).(sleepTicks := n));
    if n == 0 then SetReady(SetWakeup(s1, t), t) else s1
  }

  ghost function ScanSleepers(s: Sched, rest: seq<nat>): Sched
    decreases |rest|
  {
    if rest == [] then s else ScanSleepers(TickSleeper(s, rest[0]), rest[1..])
  }

  /** task_time_tick */
  ghost function Tick(s: Sched): Sched {
    Dispatch(ScanSleepers(SliceTick(s), s.sleep))
  }

  /** The blocking section of sys_wait. */
  ghost function WaitForChild(s: Sched): Sched {
    var s1 := SetBlock(s, s.curr);
    Dispatch(s1.Put(s.curr, s1.Get(s.curr).(state := Waiting)))
  }

  /** The wake-ups at the end of sys_exit: the first task when a zombie child moves to it, then the
      parent, each only if it waits. */
  ghost function WakeForExit(s: Sched, parent: nat, first: nat, moveChild: bool): Sched {
    var s1 := if moveChild && parent != first && s.Get(first).state == Waiting then SetReady(s, first) else s;
    if s1.Get(parent).state == Waiting then SetReady(s1, parent) else s1
  }

  /** The final section of sys_exit. */
  ghost function Exit(s: Sched, parent: nat, first: nat, moveChild: bool): Sched {
    var s1 := WakeForExit(s, parent, first, moveChild);
    Dispatch(SetBlock(s1.Put(s.curr, s1.Get(s.curr).(state := Zombie)), s.curr))
  }

  // ---------------------------------------------------------------- the functions field by field

  lemma SetReadyParts(s: Sched, t: nat)
    ensures var r := SetReady(s, t);
            if t == s.idle then r == s
            else r.ready == s.ready + [t] && r.sleep == s.sleep && r.curr == s.curr && r.idle == s.idle
                 && r.tasks == s.tasks[t := s.Get(t).(state := Ready)]
  {
  }

  lemma SetBlockParts(s: Sched, t: nat)
    ensures var r := SetBlock(s, t);
            if t == s.idle then r == s
            else r.ready == Without(s.ready, t) && r.sleep == s.sleep && r.curr == s.curr && r.idle == s.idle
                 && r.tasks == s.tasks
  {
  }

  lemma SetSleepParts(s: Sched, t: nat, ticks: nat)
    ensures var r := SetSleep(s, t, ticks);
            if ticks == 0 then r == s
            else r.ready == s.ready && r.sleep == s.sleep + [t] && r.curr == s.curr && r.idle == s.idle
                 && r.tasks == s.tasks[t := s.Get(t).(sleepTicks := ticks, state := Sleep)]
  {
  }

  lemma SetWakeupParts(s: Sched, t: nat)
    ensures var r := SetWakeup(s, t);
            r.ready == s.ready && r.sleep == Without(s.sleep, t) && r.curr == s.curr && r.idle == s.idle
            && r.tasks == s.tasks
  {
  }

  lemma DispatchParts(s: Sched)
    ensures var r, to := Dispatch(s), NextRun(s);
            if to == s.curr then r == s
            else r.ready == s.ready && r.sleep == s.sleep && r.curr == to && r.idle == s.idle
                 && r.tasks == s.tasks[to := s.Get(to).(state := Running)]
    ensures NextRun(s) == if |s.ready| == 0 then s.idle else s.ready[0]
  {
  }

  lemma PutParts(s: Sched, t: nat, v: TaskV)
    ensures var r := s.Put(t, v);
            r.ready == s.ready && r.sleep == s.sleep && r.curr == s.curr && r.idle == s.idle
            && r.tasks == s.tasks[t := v]
    ensures t in s.tasks ==> s.Get(t) == s.tasks[t]
  {
  }

  lemma SliceTickParts(s: Sched)
    ensures var v := s.Get(s.curr);
            SliceTick(s) ==
              if v.sliceTicks - 1 == 0 then
                SetReady(SetBlock(s.Put(s.curr, v.(sliceTicks := v.timeTicks)), s.curr), s.curr)
              else s.Put(s.curr, v.(sliceTicks := v.sliceTicks - 1))
    ensures SliceTick(s).sleep == s.sleep
  {
  }

  lemma TickSleeperParts(s: Sched, t: nat)
    ensures var n := s.Get(t).sleepTicks - 1;
            var s1 := s.Put(t, s.Get(t).(sleepTicks := n));
            TickSleeper(s, t) == (if n == 0 then SetReady(SetWakeup(s1, t), t) else s1)
  {
  }

  lemma ScanStep(s: Sched, rest: seq<nat>)
    ensures ScanSleepers(s, rest) == if rest == [] then s else ScanSleepers(TickSleeper(s, rest[0]), rest[1..])
  {
  }

  lemma TopParts(s: Sched, ms: nat)
    ensures Tick(s) == Dispatch(ScanSleepers(SliceTick(s), s.sleep))
    ensures SleepFor(s, ms) == Dispatch(SetSleep(SetBlock(s, s.curr), s.curr, SleepTicks(ms)))
    ensures Yield(s) == if |s.ready| > 1 then Dispatch(SetReady(SetBlock(s, s.curr), s.curr)) else s
    ensures var s1 := SetBlock(s, s.curr);
            WaitForChild(s) == Dispatch(s1.Put(s.curr, s1.Get(s.curr).(state := Waiting)))
  {
  }

  lemma ExitParts(s: Sched, parent: nat, first: nat, moveChild: bool)
    ensures var s1 := WakeForExit(s, parent, first, moveChild);
            Exit(s, parent, first, moveChild)
            == Dispatch(SetBlock(s1.Put(s.curr, s1.Get(s.curr).(state := Zombie)), s.curr))
    ensures var s1 := if moveChild && parent != first && s.Get(first).state == Waiting then SetReady(s, first) else s;
            WakeForExit(s, parent, first, moveChild) == if s1.Get(parent).state == Waiting then SetReady(s1, parent)
            else s1
  {
  }
}
