/** Mutexes and semaphores over whole runs, told by what their callers see: which calls return and
    which tasks stop waiting. */
module KernelIpc {
  import opened IpcSpec
  import opened Kernel
  import opened KernelSteps
  import opened KernelInv
  import opened KernelRuns

  /** The tasks of before that are no longer in after. */
  function Gone(before: seq<nat>, after: seq<nat>): seq<nat> {
    if before == [] then [] else (if before[0] in after then [] else [before[0]]) + Gone(before[1..], after)
  }

  lemma {:induction false} GoneNone(q: seq<nat>, after: seq<nat>)
    requires forall i :: 0 <= i < |q| ==> q[i] in after
    ensures Gone(q, after) == []
  {
    if q != [] {
      GoneNone(q[1..], after);
    }
  }

  lemma GoneFirst(q: seq<nat>)
    requires q != [] && Unique(q)
    ensures Gone(q, q[1..]) == [q[0]]
  {
    GoneNone(q[1..], q[1..]);
  }

  // ---------------------------------------------------------------- mutexes

  /** The lock depth of t as the callers count it: a lock call that returns at once and a wait that
      ends add one, an unlock call by a task inside takes one off. */
  ghost function Depth(s: Sys, op: Op, m: nat, t: nat, d: int): int
    requires Enabled(s, op) && m < |s.mutexes| && m < |Step(s, op).mutexes|
  {
    var before, after := s.mutexes[m].waiters, Step(s, op).mutexes[m].waiters;
    if t in before && t !in after then d + 1
    else if op == LockOp(m) && s.sch.curr == t && t !in after then d + 1
    else if op == UnlockOp(m) && s.sch.curr == t && d > 0 then d - 1
    else d
  }

  ghost function RunDepth(s: Sys, ops: seq<Op>, m: nat, t: nat, d: int): int
    requires Runs(s, ops) && m < |s.mutexes|
    decreases |ops|
  {
    if ops == [] then d else RunDepth(Step(s, ops[0]), ops[1..], m, t, Depth(s, ops[0], m, t, d))
  }

  /** The depth the mutex itself records for t. */
  function Held(m: MutexV, t: nat): int {
    if m.owner == Some(t) then m.count else 0
  }

  lemma OtherOps(s: Sys, op: Op, m: nat)
    requires Enabled(s, op) && m < |s.mutexes| && op != LockOp(m) && op != UnlockOp(m)
    ensures |Step(s, op).mutexes| == |s.mutexes| && Step(s, op).mutexes[m] == s.mutexes[m]
  {
  }

  /** The current task waits for no mutex. */
  lemma CurrNotWaiting(s: Sys, m: nat)
    requires Inv(s) && s.sch.curr != s.sch.idle && m < |s.mutexes|
    ensures s.sch.curr !in s.mutexes[m].waiters
  {
    hide Inv, InSched, Calm;
    InvParts(s);
    CurrReady(s.sch);
    MutexWaiters(s, m);
  }

  lemma StepDepth(s: Sys, op: Op, m: nat, t: nat)
    requires Inv(s) && Enabled(s, op) && m < |s.mutexes|
    ensures |Step(s, op).mutexes| == |s.mutexes|
    ensures Depth(s, op, m, t, Held(s.mutexes[m], t)) == Held(Step(s, op).mutexes[m], t)
  {
    hide Inv, MutexOk, Lock, Unlock, InSched;
    var v := s.mutexes[m];
    if op == LockOp(m) {
      LockParts(s.sch, v);
      CurrNotWaiting(s, m);
      MutexIsOk(s, m);
      OkParts(v);
    } else if op == UnlockOp(m) {
      LockParts(s.sch, v);
      CurrNotWaiting(s, m);
      MutexIsOk(s, m);
      OkParts(v);
      MutexWaiters(s, m);
    } else {
      OtherOps(s, op, m);
    }
  }

  lemma OkParts(v: MutexV)
    requires MutexOk(v)
    ensures v.count >= 0 && (v.count > 0 <==> v.owner.Some?) && (v.waiters != [] ==> v.count > 0)
    ensures v.owner.Some? ==> v.owner.value !in v.waiters
  {
  }

  /** Over any run the recorded depth is the depth the callers count: nested locks need equally
      many unlocks before the mutex is free, and an unlock by a task outside changes nothing. */
  lemma {:induction false} DepthIsHeld(s: Sys, ops: seq<Op>, m: nat, t: nat)
    requires Inv(s) && Runs(s, ops) && m < |s.mutexes|
    ensures |Final(s, ops).mutexes| == |s.mutexes|
    ensures RunDepth(s, ops, m, t, Held(s.mutexes[m], t)) == Held(Final(s, ops).mutexes[m], t)
    decreases |ops|
  {
    hide Inv, Enabled, Step, Depth;
    if ops != [] {
      StepKeeps(s, ops[0]);
      StepDepth(s, ops[0], m, t);
      DepthIsHeld(Step(s, ops[0]), ops[1..], m, t);
    }
  }

  /** Mutual exclusion over every run from boot: two tasks between a lock return and its matching
      unlock are the same task, no such task waits for the mutex, and whenever a task waits, some
      task is inside. */
  lemma MutualExclusion(ids: set<nat>, first: nat, idle: nat, mutexes: nat, counts: seq<nat>, ops: seq<Op>, m: nat,
                        t: nat, u: nat)
    requires first != idle && Runs(Boot(ids, first, idle, mutexes, counts), ops) && m < mutexes
    ensures var s0 := Boot(ids, first, idle, mutexes, counts);
            var w := Final(s0, ops).mutexes;
            && |w| == mutexes
            && (RunDepth(s0, ops, m, t, 0) > 0 && RunDepth(s0, ops, m, u, 0) > 0 ==> t == u)
            && (RunDepth(s0, ops, m, t, 0) > 0 ==> t !in w[m].waiters)
            && (w[m].waiters != [] ==> exists x :: RunDepth(s0, ops, m, x, 0) > 0)
  {
    hide Inv, RunDepth, Final, Runs;
    var s0 := Boot(ids, first, idle, mutexes, counts);
    BootInv(ids, first, idle, mutexes, counts);
    RunKeeps(s0, ops);
    DepthIsHeld(s0, ops, m, t);
    DepthIsHeld(s0, ops, m, u);
    var w := Final(s0, ops).mutexes;
    MutexIsOk(Final(s0, ops), m);
    if w[m].waiters != [] {
      var x := w[m].owner.value;
      DepthIsHeld(s0, ops, m, x);
      assert RunDepth(s0, ops, m, x, 0) > 0;
    }
  }

  /** The tasks whose lock call blocked, in the order of the calls. */
  ghost function LockRequests(s: Sys, ops: seq<Op>, m: nat): seq<nat>
    requires Runs(s, ops) && m < |s.mutexes|
    decreases |ops|
  {
    if ops == [] then []
    else (if ops[0] == LockOp(m) && s.sch.curr in Step(s, ops[0]).mutexes[m].waiters then [s.sch.curr] else [])
         + LockRequests(Step(s, ops[0]), ops[1..], m)
  }

  /** The tasks that stopped waiting, in the order in which they did. */
  ghost function LockGrants(s: Sys, ops: seq<Op>, m: nat): seq<nat>
    requires Runs(s, ops) && m < |s.mutexes|
    decreases |ops|
  {
    if ops == [] then []
    else Gone(s.mutexes[m].waiters, Step(s, ops[0]).mutexes[m].waiters) + LockGrants(Step(s, ops[0]), ops[1..], m)
  }

  lemma StepFifo(s: Sys, op: Op, m: nat)
    requires Inv(s) && Enabled(s, op) && m < |s.mutexes|
    ensures |Step(s, op).mutexes| == |s.mutexes|
    ensures var before, v := s.mutexes[m].waiters, Step(s, op).mutexes[m];
            && before + (if op == LockOp(m) && s.sch.curr in v.waiters then [s.sch.curr] else [])
               == Gone(before, v.waiters) + v.waiters
            && forall t :: t in before && t !in v.waiters ==> v.owner == Some(t) && v.count == 1
  {
    hide Inv, Lock, Unlock, InSched;
    var v := s.mutexes[m];
    GoneNone(v.waiters, v.waiters);
    if op == LockOp(m) {
      LockParts(s.sch, v);
      CurrNotWaiting(s, m);
      GoneNone(v.waiters, v.waiters + [s.sch.curr]);
    } else if op == UnlockOp(m) {
      LockParts(s.sch, v);
      UniqueTimes(s);
      if v.waiters != [] {
        GoneFirst(v.waiters);
        assert v.waiters == [v.waiters[0]] + v.waiters[1..];
      }
    } else {
      OtherOps(s, op, m);
    }
  }

  /** Ownership passes in request order: over any run the requests, after those already waiting,
      are the grants followed by those still waiting. */
  lemma {:induction false} LockFifo(s: Sys, ops: seq<Op>, m: nat)
    requires Inv(s) && Runs(s, ops) && m < |s.mutexes|
    ensures |Final(s, ops).mutexes| == |s.mutexes|
    ensures s.mutexes[m].waiters + LockRequests(s, ops, m) == LockGrants(s, ops, m) + Final(s, ops).mutexes[m].waiters
    decreases |ops|
  {
    hide Inv, Enabled, Step, Gone;
    if ops != [] {
      StepKeeps(s, ops[0]);
      StepFifo(s, ops[0], m);
      LockFifo(Step(s, ops[0]), ops[1..], m);
      Regroup(s.mutexes[m].waiters,
              if ops[0] == LockOp(m) && s.sch.curr in Step(s, ops[0]).mutexes[m].waiters then [s.sch.curr] else [],
              LockRequests(Step(s, ops[0]), ops[1..], m),
              Gone(s.mutexes[m].waiters, Step(s, ops[0]).mutexes[m].waiters),
              Step(s, ops[0]).mutexes[m].waiters, LockGrants(Step(s, ops[0]), ops[1..], m),
              Final(s, ops).mutexes[m].waiters);
    }
  }

  lemma Regroup(w: seq<nat>, a: seq<nat>, b: seq<nat>, g: seq<nat>, w1: seq<nat>, h: seq<nat>, w2: seq<nat>)
    requires w + a == g + w1 && w1 + b == h + w2
    ensures w + (a + b) == (g + h) + w2
  {
    assert w + (a + b) == (w + a) + b == g + (w1 + b) == (g + h) + w2;
  }

  // ---------------------------------------------------------------- semaphores

  lemma OtherSemOps(s: Sys, op: Op, k: nat)
    requires Enabled(s, op) && k < |s.sems| && op != WaitOp(k) && op != NotifyOp(k)
    ensures |Step(s, op).sems| == |s.sems| && Step(s, op).sems[k] == s.sems[k]
  {
  }

  lemma CurrNotOnSem(s: Sys, k: nat)
    requires Inv(s) && s.sch.curr != s.sch.idle && k < |s.sems|
    ensures s.sch.curr !in s.sems[k].waiters
  {
    hide Inv, InSched, Calm;
    InvParts(s);
    CurrReady(s.sch);
    SemWaiters(s, k);
  }

  /** The tasks whose wait call blocked, in the order of the calls. */
  ghost function WaitRequests(s: Sys, ops: seq<Op>, k: nat): seq<nat>
    requires Runs(s, ops) && k < |s.sems|
    decreases |ops|
  {
    if ops == [] then []
    else (if ops[0] == WaitOp(k) && s.sch.curr in Step(s, ops[0]).sems[k].waiters then [s.sch.curr] else [])
         + WaitRequests(Step(s, ops[0]), ops[1..], k)
  }

  /** The tasks that stopped waiting, in the order in which they did. */
  ghost function WaitGrants(s: Sys, ops: seq<Op>, k: nat): seq<nat>
    requires Runs(s, ops) && k < |s.sems|
    decreases |ops|
  {
    if ops == [] then []
    else Gone(s.sems[k].waiters, Step(s, ops[0]).sems[k].waiters) + WaitGrants(Step(s, ops[0]), ops[1..], k)
  }

  /** The number of wait calls that returned at once. */
  ghost function Taken(s: Sys, ops: seq<Op>, k: nat): nat
    requires Runs(s, ops) && k < |s.sems|
    decreases |ops|
  {
    if ops == [] then 0
    else
      (if ops[0] == WaitOp(k) && s.sch.curr !in Step(s, ops[0]).sems[k].waiters then 1 else 0)
      + Taken(Step(s, ops[0]), ops[1..], k)
  }

  function Notifies(ops: seq<Op>, k: nat): nat {
    if ops == [] then 0 else (if ops[0] == NotifyOp(k) then 1 else 0) + Notifies(ops[1..], k)
  }

  lemma StepSem(s: Sys, op: Op, k: nat)
    requires Inv(s) && Enabled(s, op) && k < |s.sems|
    ensures |Step(s, op).sems| == |s.sems|
    ensures var before, v := s.sems[k], Step(s, op).sems[k];
            && before.waiters + (if op == WaitOp(k) && s.sch.curr in v.waiters then [s.sch.curr] else [])
               == Gone(before.waiters, v.waiters) + v.waiters
            && before.count + (if op == NotifyOp(k) then 1 else 0)
               == v.count + (if op == WaitOp(k) && s.sch.curr !in v.waiters then 1 else 0)
                  + |Gone(before.waiters, v.waiters)|
  {
    hide Inv, Wait, Notify, InSched, SemOk;
    var v := s.sems[k];
    GoneNone(v.waiters, v.waiters);
    if op == WaitOp(k) {
      WaitParts(s.sch, v);
      CurrNotOnSem(s, k);
      GoneNone(v.waiters, v.waiters + [s.sch.curr]);
    } else if op == NotifyOp(k) {
      WaitParts(s.sch, v);
      UniqueTimes(s);
      if v.waiters != [] {
        GoneFirst(v.waiters);
        assert v.waiters == [v.waiters[0]] + v.waiters[1..];
      }
    } else {
      OtherSemOps(s, op, k);
    }
  }

  /** Over any run: waits are granted in request order, the first count plus the notifies is the
      last count plus the waits that returned, and a count above 0 means nobody waits. */
  lemma {:induction false} SemConserved(s: Sys, ops: seq<Op>, k: nat)
    requires Inv(s) && Runs(s, ops) && k < |s.sems|
    ensures |Final(s, ops).sems| == |s.sems|
    ensures s.sems[k].waiters + WaitRequests(s, ops, k) == WaitGrants(s, ops, k) + Final(s, ops).sems[k].waiters
    ensures s.sems[k].count + Notifies(ops, k)
            == Final(s, ops).sems[k].count + Taken(s, ops, k) + |WaitGrants(s, ops, k)|
    ensures Final(s, ops).sems[k].count >= 0
    ensures Final(s, ops).sems[k].count > 0 ==> Final(s, ops).sems[k].waiters == []
    decreases |ops|
  {
    hide Inv, Enabled, Step, Gone;
    SemIsOk(s, k);
    if ops != [] {
      StepKeeps(s, ops[0]);
      StepSem(s, ops[0], k);
      SemConserved(Step(s, ops[0]), ops[1..], k);
      Regroup(s.sems[k].waiters,
              if ops[0] == WaitOp(k) && s.sch.curr in Step(s, ops[0]).sems[k].waiters then [s.sch.curr] else [],
              WaitRequests(Step(s, ops[0]), ops[1..], k),
              Gone(s.sems[k].waiters, Step(s, ops[0]).sems[k].waiters),
              Step(s, ops[0]).sems[k].waiters, WaitGrants(Step(s, ops[0]), ops[1..], k), Final(s, ops).sems[k].waiters);
    }
  }
}
