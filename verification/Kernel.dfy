/** The whole scheduler with its mutexes and semaphores as a state machine. A step is one call with
    interrupts off: a timer tick, or one call of the current task (a notify may also come from an
    interrupt handler). */
module Kernel {
  import opened Bits
  import opened IntrusiveList
  import opened SchedSpec
  import opened IpcSpec

  datatype Sys = Sys(sch: Sched, mutexes: seq<MutexV>, sems: seq<SemV>, started: set<nat>)

  datatype Op =
    | TickOp
    | YieldOp
    | SleepOp(ms: nat)
    | LockOp(m: nat)
    | UnlockOp(m: nat)
    | WaitOp(k: nat)
    | NotifyOp(k: nat)
    | StartOp(t: nat)
    | WaitChildOp
    | ExitOp(parent: nat, first: nat, moveChild: bool)
    | ReapOp(t: nat)

  /** What the callers of each operation keep. sys_sleep is called with 0 < ms <= 2^32 - 10: what
      it does otherwise is KernelRuns.SleepKeepsTask. */
  predicate Enabled(s: Sys, op: Op) {
    match op
    case TickOp => true
    case NotifyOp(k) => k < |s.sems|
    case YieldOp => s.sch.curr != s.sch.idle
    case SleepOp(ms) => s.sch.curr != s.sch.idle && 0 < ms <= TWO_32 - 10
    case LockOp(m) => s.sch.curr != s.sch.idle && m < |s.mutexes|
    case UnlockOp(m) => s.sch.curr != s.sch.idle && m < |s.mutexes|
    case WaitOp(k) => s.sch.curr != s.sch.idle && k < |s.sems|
    case StartOp(t) => s.sch.curr != s.sch.idle && t !in s.started && t != s.sch.idle
    case WaitChildOp => s.sch.curr != s.sch.idle
    case ExitOp(_, _, _) => s.sch.curr != s.sch.idle
    case ReapOp(t) => s.sch.curr != s.sch.idle && s.sch.Get(t).state == Zombie
  }

  ghost function Step(s: Sys, op: Op): Sys
    requires Enabled(s, op)
  {
    match op
    case TickOp => s.(sch := Tick(s.sch))
    case YieldOp => s.(sch := Yield(s.sch))
    case SleepOp(ms) => s.(sch := SleepFor(s.sch, ms))
    case LockOp(m) => var r := Lock(s.sch, s.mutexes[m]); s.(sch := r.0, mutexes := s.mutexes[m := r.1])
    case UnlockOp(m) => var r := Unlock(s.sch, s.mutexes[m]); s.(sch := r.0, mutexes := s.mutexes[m := r.1])
    case WaitOp(k) => var r := Wait(s.sch, s.sems[k]); s.(sch := r.0, sems := s.sems[k := r.1])
    case NotifyOp(k) => var r := Notify(s.sch, s.sems[k]); s.(sch := r.0, sems := s.sems[k := r.1])
    // task_init, then task_start
    case StartOp(t) => s.(sch := SetReady(s.sch.Put(t, NEW_TASK), t), started := s.started + {t})
    case WaitChildOp => s.(sch := WaitForChild(s.sch))
    case ExitOp(parent, first, moveChild) => s.(sch := Exit(s.sch, parent, first, moveChild))
    // sys_wait clears the zombie's task table entry
    case ReapOp(t) => s.(sch := s.sch.Put(t, TaskV(Created, 0, 0, 0)), started := s.started - {t})
  }

  /** The state task_first_init leaves: a table of new tasks, and the first task current and ready. */
  function Boot(ids: set<nat>, first: nat, idle: nat, mutexes: nat, counts: seq<nat>): Sys
    requires first != idle
  {
    Sys(Sched([first], [], first, idle,
              (map t | t in ids :: NEW_TASK)[first := NEW_TASK.(state := Ready)]),
        seq(mutexes, _ => MutexV(0, None, [])), seq(|counts|, i requires 0 <= i < |counts| => SemV(counts[i], [])),
        {first})
  }

  // ---------------------------------------------------------------- where a task is

  function Times(q: seq<nat>, t: nat): nat {
    multiset(q)[t]
  }

  function InMutexes(m: seq<MutexV>, t: nat): nat {
    if m == [] then 0 else Times(m[0].waiters, t) + InMutexes(m[1..], t)
  }

  function InSems(m: seq<SemV>, t: nat): nat {
    if m == [] then 0 else Times(m[0].waiters, t) + InSems(m[1..], t)
  }

  /** How often t stands in a scheduler queue or is marked as waiting or zombie. */
  function InSched(s: Sched, t: nat): nat {
    Times(s.ready, t) + Times(s.sleep, t)
    + (if s.Get(t).state == Waiting then 1 else 0) + (if s.Get(t).state == Zombie then 1 else 0)
  }

  /** The number of places that hold t. */
  function Places(s: Sys, t: nat): nat {
    InSched(s.sch, t) + InMutexes(s.mutexes, t) + InSems(s.sems, t)
  }

  ghost predicate OnePlace(s: Sys) {
    forall t :: Places(s, t) == if t in s.started then 1 else 0
  }

  predicate MutexOk(m: MutexV) {
    && m.count >= 0 && (m.count > 0 <==> m.owner.Some?)
    && (m.waiters != [] ==> m.count > 0) && (m.owner.Some? ==> m.owner.value !in m.waiters)
  }

  predicate SemOk(m: SemV) {
    m.count >= 0 && (m.count > 0 ==> m.waiters == [])
  }

  predicate SliceOk(v: TaskV) {
    v.timeTicks == TIME_SLICE && 1 <= v.sliceTicks <= TIME_SLICE
  }

  /** Slices of the tasks that exist and tick counts of the sleepers. */
  ghost predicate TimesOk(s: Sched, started: set<nat>) {
    && SliceOk(s.Get(s.idle)) && (forall t :: t in started ==> SliceOk(s.Get(t)))
    && forall i :: 0 <= i < |s.sleep| ==> s.Get(s.sleep[i]).sleepTicks >= 1
  }

  /** The invariant: every started task is in exactly one place and no other task is in any, the
      current task is the head of the ready queue, or idle when it is empty, and the mutexes and
      semaphores are in order. */
  ghost predicate Inv(s: Sys) {
    && OnePlace(s) && s.sch.idle !in s.started && s.sch.curr == NextRun(s.sch)
    && TimesOk(s.sch, s.started)
    && (forall m :: 0 <= m < |s.mutexes| ==> MutexOk(s.mutexes[m]))
    && (forall k :: 0 <= k < |s.sems| ==> SemOk(s.sems[k]))
  }

  // ---------------------------------------------------------------- counting

  lemma TimesSnoc(q: seq<nat>, t: nat, x: nat)
    ensures Times(q + [t], x) == Times(q, x) + if x == t then 1 else 0
  {
  }

  lemma {:induction false} TimesWithout(q: seq<nat>, t: nat, x: nat)
    requires t in q
    ensures Times(Without(q, t), x) == Times(q, x) - if x == t then 1 else 0
    decreases |q|
  {
    assert q == [q[0]] + q[1..];
    if q[0] != t {
      TimesWithout(q[1..], t, x);
      assert Without(q, t) == [q[0]] + Without(q[1..], t);
    }
  }

  lemma TimesTail(q: seq<nat>, x: nat)
    requires q != []
    ensures Times(q[1..], x) == Times(q, x) - if x == q[0] then 1 else 0
  {
    assert q == [q[0]] + q[1..];
  }

  lemma TimesIn(q: seq<nat>, x: nat)
    ensures Times(q, x) > 0 <==> x in q
  {
  }

  lemma {:induction false} InMutexesAt(m: seq<MutexV>, i: nat, v: MutexV, t: nat)
    requires i < |m|
    ensures InMutexes(m[i := v], t) == InMutexes(m, t) - Times(m[i].waiters, t) + Times(v.waiters, t)
    ensures InMutexes(m, t) >= Times(m[i].waiters, t)
    decreases i
  {
    if i > 0 {
      InMutexesAt(m[1..], i - 1, v, t);
      assert m[i := v][1..] == m[1..][i - 1 := v];
    }
  }

  lemma {:induction false} InSemsAt(m: seq<SemV>, i: nat, v: SemV, t: nat)
    requires i < |m|
    ensures InSems(m[i := v], t) == InSems(m, t) - Times(m[i].waiters, t) + Times(v.waiters, t)
    ensures InSems(m, t) >= Times(m[i].waiters, t)
    decreases i
  {
    if i > 0 {
      InSemsAt(m[1..], i - 1, v, t);
      assert m[i := v][1..] == m[1..][i - 1 := v];
    }
  }

  lemma Distinct(q: seq<nat>)
    requires forall t :: Times(q, t) <= 1
    ensures forall i, j :: 0 <= i < j < |q| ==> q[i] != q[j]
  {
    forall i, j | 0 <= i < j < |q|
      ensures q[i] != q[j]
    {
      assert q == q[..j] + q[j..];
      assert q[i] in q[..j] && q[j] in q[j..] && Times(q, q[i]) <= 1;
    }
  }
}
