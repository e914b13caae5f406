/** What holds over whole runs of the kernel: no task is lost, waiting for the processor is bounded,
    sleeping is exact, and mutexes and semaphores hand over in request order. */
module KernelRuns {
  import opened Bits
  import opened SchedSpec
  import opened IpcSpec
  import opened Kernel
  import opened KernelSteps
  import opened KernelInv

  ghost predicate Runs(s: Sys, ops: seq<Op>)
    decreases |ops|
  {
    ops == [] || (Enabled(s, ops[0]) && Runs(Step(s, ops[0]), ops[1..]))
  }

  ghost function Final(s: Sys, ops: seq<Op>): Sys
    requires Runs(s, ops)
    decreases |ops|
  {
    if ops == [] then s else Final(Step(s, ops[0]), ops[1..])
  }

  function Ticks(ops: seq<Op>): nat {
    if ops == [] then 0 else (if ops[0].TickOp? then 1 else 0) + Ticks(ops[1..])
  }

  lemma {:induction false} RunKeeps(s: Sys, ops: seq<Op>)
    requires Inv(s) && Runs(s, ops)
    ensures Inv(Final(s, ops))
    decreases |ops|
  {
    hide Inv, Step, Enabled;
    if ops != [] {
      StepKeeps(s, ops[0]);
      RunKeeps(Step(s, ops[0]), ops[1..]);
    }
  }

  // ---------------------------------------------------------------- no task lost or duplicated

  datatype Place = ReadyQueue | SleepQueue | OnMutex(m: nat) | OnSem(k: nat) | ChildWait | ZombieState

  predicate At(s: Sys, t: nat, p: Place) {
    match p
    case ReadyQueue => t in s.sch.ready
    case SleepQueue => t in s.sch.sleep
    case OnMutex(m) => m < |s.mutexes| && t in s.mutexes[m].waiters
    case OnSem(k) => k < |s.sems| && t in s.sems[k].waiters
    case ChildWait => s.sch.Get(t).state == Waiting
    case ZombieState => s.sch.Get(t).state == Zombie
  }

  ghost predicate Unique(q: seq<nat>) {
    forall i, j :: 0 <= i < j < |q| ==> q[i] != q[j]
  }

  lemma {:induction false} SomeMutex(m: seq<MutexV>, t: nat) returns (i: nat)
    requires InMutexes(m, t) > 0
    ensures i < |m| && t in m[i].waiters
    decreases |m|
  {
    TimesIn(m[0].waiters, t);
    if t in m[0].waiters {
      i := 0;
    } else {
      i := SomeMutex(m[1..], t);
      i := i + 1;
    }
  }

  lemma {:induction false} SomeSem(m: seq<SemV>, t: nat) returns (i: nat)
    requires InSems(m, t) > 0
    ensures i < |m| && t in m[i].waiters
    decreases |m|
  {
    TimesIn(m[0].waiters, t);
    if t in m[0].waiters {
      i := 0;
    } else {
      i := SomeSem(m[1..], t);
      i := i + 1;
    }
  }

  lemma TwoMutexes(m: seq<MutexV>, i: nat, j: nat, x: nat)
    requires i < |m| && j < |m| && i != j
    ensures Times(m[i].waiters, x) + Times(m[j].waiters, x) <= InMutexes(m, x)
  {
    var none := MutexV(0, None, []);
    InMutexesAt(m, i, none, x);
    InMutexesAt(m[i := none], j, none, x);
  }

  lemma TwoSems(m: seq<SemV>, i: nat, j: nat, x: nat)
    requires i < |m| && j < |m| && i != j
    ensures Times(m[i].waiters, x) + Times(m[j].waiters, x) <= InSems(m, x)
  {
    var none := SemV(0, []);
    InSemsAt(m, i, none, x);
    InSemsAt(m[i := none], j, none, x);
  }

  /** How much a place adds to Places. */
  function Weight(s: Sys, t: nat, p: Place): nat {
    match p
    case ReadyQueue => Times(s.sch.ready, t)
    case SleepQueue => Times(s.sch.sleep, t)
    case OnMutex(m) => if m < |s.mutexes| then Times(s.mutexes[m].waiters, t) else 0
    case OnSem(k) => if k < |s.sems| then Times(s.sems[k].waiters, t) else 0
    case ChildWait => if s.sch.Get(t).state == Waiting then 1 else 0
    case ZombieState => if s.sch.Get(t).state == Zombie then 1 else 0
  }

  lemma AtWeight(s: Sys, t: nat, p: Place)
    ensures At(s, t, p) <==> Weight(s, t, p) > 0
    ensures Weight(s, t, p) <= Places(s, t)
  {
    match p
    case ReadyQueue => TimesIn(s.sch.ready, t);
    case SleepQueue => TimesIn(s.sch.sleep, t);
    case OnMutex(m) =>
      if m < |s.mutexes| {
        TimesIn(s.mutexes[m].waiters, t);
        InMutexesAt(s.mutexes, m, s.mutexes[m], t);
      }
    case OnSem(k) => if k < |s.sems| { TimesIn(s.sems[k].waiters, t); InSemsAt(s.sems, k, s.sems[k], t); }
    case _ =>
  }

  lemma TwoWeights(s: Sys, t: nat, p: Place, q: Place)
    requires p != q
    ensures Weight(s, t, p) + Weight(s, t, q) <= Places(s, t)
  {
    AtWeight(s, t, p);
    AtWeight(s, t, q);
    match (p, q)
    case (OnMutex(m), OnMutex(n)) =>
      if m < |s.mutexes| && n < |s.mutexes| { TwoMutexes(s.mutexes, m, n, t); }
    case (OnSem(m), OnSem(n)) =>
      if m < |s.sems| && n < |s.sems| { TwoSems(s.sems, m, n, t); }
    case (OnMutex(m), _) => if m < |s.mutexes| { InMutexesAt(s.mutexes, m, s.mutexes[m], t); MixedWeight(s, t, q); }
    case (_, OnMutex(m)) => if m < |s.mutexes| { InMutexesAt(s.mutexes, m, s.mutexes[m], t); MixedWeight(s, t, p); }
    case (OnSem(k), _) => if k < |s.sems| { InSemsAt(s.sems, k, s.sems[k], t); }
    case (_, OnSem(k)) => if k < |s.sems| { InSemsAt(s.sems, k, s.sems[k], t); }
    case _ =>
  }

  lemma MixedWeight(s: Sys, t: nat, q: Place)
    requires !q.OnMutex?
    ensures Weight(s, t, q) <= InSched(s.sch, t) + InSems(s.sems, t)
  {
    match q
    case OnSem(k) => if k < |s.sems| { InSemsAt(s.sems, k, s.sems[k], t); }
    case _ =>
  }

  lemma PlaceOf(s: Sys, t: nat) returns (p: Place)
    requires Places(s, t) > 0
    ensures At(s, t, p)
  {
    InReady(s.sch, t);
    if InSched(s.sch, t) > 0 {
      p := if t in s.sch.ready then ReadyQueue else if t in s.sch.sleep then SleepQueue
           else if s.sch.Get(t).state == Waiting then ChildWait else ZombieState;
    } else if InMutexes(s.mutexes, t) > 0 {
      var i := SomeMutex(s.mutexes, t);
      p := OnMutex(i);
    } else {
      var i := SomeSem(s.sems, t);
      p := OnSem(i);
    }
  }

  lemma UniqueTimes(s: Sys)
    requires Inv(s)
    ensures Unique(s.sch.ready) && Unique(s.sch.sleep)
    ensures forall m :: 0 <= m < |s.mutexes| ==> Unique(s.mutexes[m].waiters)
    ensures forall k :: 0 <= k < |s.sems| ==> Unique(s.sems[k].waiters)
  {
    hide InSched, Inv;
    InvParts(s);
    forall x
      ensures Times(s.sch.ready, x) <= 1 && Times(s.sch.sleep, x) <= 1
    {
      InReady(s.sch, x);
      assert Places(s, x) == if x in s.started then 1 else 0;
    }
    Distinct(s.sch.ready);
    Distinct(s.sch.sleep);
    forall m | 0 <= m < |s.mutexes|
      ensures Unique(s.mutexes[m].waiters)
    {
      MutexWaiters(s, m);
    }
    forall k | 0 <= k < |s.sems|
      ensures Unique(s.sems[k].waiters)
    {
      SemWaiters(s, k);
    }
  }

  /** In every state a run from boot reaches, a started task is in exactly one place, once, any
      other task is in none, and the current task is the head of the ready queue, or idle when it
      is empty. */
  lemma NoTaskLost(ids: set<nat>, first: nat, idle: nat, mutexes: nat, counts: seq<nat>, ops: seq<Op>, t: nat)
    requires first != idle && Runs(Boot(ids, first, idle, mutexes, counts), ops)
    ensures var s := Final(Boot(ids, first, idle, mutexes, counts), ops);
            && s.sch.curr == (if s.sch.ready == [] then s.sch.idle else s.sch.ready[0])
            && Unique(s.sch.ready) && Unique(s.sch.sleep)
            && (forall m :: 0 <= m < |s.mutexes| ==> Unique(s.mutexes[m].waiters))
            && (forall k :: 0 <= k < |s.sems| ==> Unique(s.sems[k].waiters))
            && (t in s.started ==> exists p :: At(s, t, p) && forall q :: At(s, t, q) ==> q == p)
            && (t !in s.started ==> forall q :: !At(s, t, q))
  {
    hide Inv, At, Places, Step, Enabled, Weight, Boot;
    var s0 := Boot(ids, first, idle, mutexes, counts);
    BootInv(ids, first, idle, mutexes, counts);
    RunKeeps(s0, ops);
    var s := Final(s0, ops);
    InvParts(s);
    UniqueTimes(s);
    assert Places(s, t) == if t in s.started then 1 else 0;
    if t in s.started {
      var p := PlaceOf(s, t);
      AtWeight(s, t, p);
      forall q | At(s, t, q)
        ensures q == p
      {
        AtWeight(s, t, q);
        if q != p {
          TwoWeights(s, t, p, q);
        }
      }
    } else {
      forall q
        ensures !At(s, t, q)
      {
        AtWeight(s, t, q);
      }
    }
  }

  /** sys_sleep keeps the calling task in a queue exactly for 0 < ms <= 2^32 - 10. For 0 the task
      is only taken out of the ready queue, and for the largest values the sum that rounds up to
      ticks wraps around to 0 ticks, with the same effect. */
  lemma SleepKeepsTask(s: Sys, ms: nat)
    requires Inv(s) && s.sch.curr != s.sch.idle && ms < TWO_32
    ensures InSched(SleepFor(s.sch, ms), s.sch.curr) == 1 <==> 0 < ms <= TWO_32 - 10
    ensures InSched(SleepFor(s.sch, ms), s.sch.curr) == 0 <==> !(0 < ms <= TWO_32 - 10)
  {
    hide Inv, SleepFor, SetBlock, SetSleep, Dispatch, InSched, SleepTicks;
    InvParts(s);
    CurrReady(s.sch);
    SleepTicksZero(ms);
    if SleepTicks(ms) > 0 {
      SleepMoves(s.sch, ms);
    } else {
      TopParts(s.sch, ms);
      SetSleepParts(SetBlock(s.sch, s.sch.curr), s.sch.curr, 0);
      BlockCurr(s.sch);
    }
  }

  lemma SleepTicksZero(ms: nat)
    requires ms < TWO_32
    ensures SleepTicks(ms) > 0 <==> 0 < ms <= TWO_32 - 10
    ensures 0 < ms <= TWO_32 - 10 ==> 10 * (SleepTicks(ms) - 1) < ms <= 10 * SleepTicks(ms)
  {
  }
}
