/** kernel/ipc/mutex.c and kernel/ipc/sem.c on values: each function is one whole call, which runs
    with interrupts off. */
module IpcSpec {
  import opened SchedSpec

  datatype Option<T> = None | Some(value: T)

  datatype MutexV = MutexV(count: int, owner: Option<nat>, waiters: seq<nat>)

  datatype SemV = SemV(count: int, waiters: seq<nat>)

  /** mutex_lock */
  ghost function Lock(s: Sched, m: MutexV): (Sched, MutexV) {
    if m.count == 0 then (s, m.(count := m.count + 1, owner := Some(s.curr)))
    else if m.owner == Some(s.curr) then (s, m.(count := m.count + 1))
    else (Dispatch(SetBlock(s, s.curr)), m.(waiters := m.waiters + [s.curr]))
  }

  /** mutex_unlock */
  function Unlock(s: Sched, m: MutexV): (Sched, MutexV) {
    if m.owner != Some(s.curr) then (s, m)
    else if m.count - 1 != 0 then (s, m.(count := m.count - 1))
    else if |m.waiters| == 0 then (s, m.(count := m.count - 1, owner := None))
    else (Dispatch(SetReady(s, m.waiters[0])), MutexV(1, Some(m.waiters[0]), m.waiters[1..]))
  }

  /** sem_wait */
  ghost function Wait(s: Sched, m: SemV): (Sched, SemV) {
    if m.count > 0 then (s, m.(count := m.count - 1))
    else (Dispatch(SetBlock(s, s.curr)), m.(waiters := m.waiters + [s.curr]))
  }

  /** sem_notify */
  function Notify(s: Sched, m: SemV): (Sched, SemV) {
    if |m.waiters| > 0 then (Dispatch(SetReady(s, m.waiters[0])), m.(waiters := m.waiters[1..]))
    else (s, m.(count := m.count + 1))
  }

  lemma LockParts(s: Sched, m: MutexV)
    ensures Lock(s, m) ==
            if m.count == 0 then (s, m.(count := m.count + 1, owner := Some(s.curr)))
            else if m.owner == Some(s.curr) then (s, m.(count := m.count + 1))
            else (Dispatch(SetBlock(s, s.curr)), m.(waiters := m.waiters + [s.curr]))
    ensures Unlock(s, m) ==
            if m.owner != Some(s.curr) then (s, m)
            else if m.count - 1 != 0 then (s, m.(count := m.count - 1))
            else if |m.waiters| == 0 then (s, m.(count := m.count - 1, owner := None))
            else (Dispatch(SetReady(s, m.waiters[0])), MutexV(1, Some(m.waiters[0]), m.waiters[1..]))
  {
  }

  lemma WaitParts(s: Sched, m: SemV)
    ensures Wait(s, m) ==
            if m.count > 0 then (s, m.(count := m.count - 1))
            else (Dispatch(SetBlock(s, s.curr)), m.(waiters := m.waiters + [s.curr]))
    ensures Notify(s, m) ==
            if |m.waiters| > 0 then (Dispatch(SetReady(s, m.waiters[0])), m.(waiters := m.waiters[1..]))
            else (s, m.(count := m.count + 1))
  {
  }
}

/** kernel/ipc/mutex.c and kernel/ipc/sem.c on the intrusive lists. */
module Ipc {
  import opened IntrusiveList
  import opened SchedSpec
  import opened Scheduler
  import opened IpcSpec

  /** n is the wait node of a task other than the idle task that is in neither queue. */
  ghost predicate Waits(tm: TaskManager, n: Node, ready: seq<Node>, sleep: seq<Node>) {
    && n.tid in tm.tasks && n.tid != tm.idle && n == tm.tasks[n.tid].wait
    && tm.tasks[n.tid].run !in ready && tm.tasks[n.tid].run !in sleep
  }

  ghost predicate AllWait(tm: TaskManager, nodes: seq<Node>, ready: seq<Node>, sleep: seq<Node>) {
    forall i :: 0 <= i < |nodes| ==> Waits(tm, nodes[i], ready, sleep)
  }

  /** A wait list of a mutex or a semaphore. */
  ghost predicate Waiters(tm: TaskManager, l: List)
    reads tm, tm.ready, tm.sleep, l, l.nodes
  {
    l.Valid() && l !in tm.Footprint() && AllWait(tm, l.nodes, tm.ready.nodes, tm.sleep.nodes)
  }

  lemma WaitersParts(tm: TaskManager, l: List)
    requires tm.Valid() && Waiters(tm, l)
    ensures l.Valid() && l.count == |l.nodes| && l !in tm.Footprint()
    ensures forall i :: 0 <= i < |l.nodes| ==> l.nodes[i] !in tm.Footprint()
    ensures AllWait(tm, l.nodes, tm.ready.nodes, tm.sleep.nodes)
  {
  }

  lemma MakeWaiters(tm: TaskManager, l: List)
    requires l.Valid() == true && l !in tm.Footprint() && AllWait(tm, l.nodes, tm.ready.nodes, tm.sleep.nodes)
    ensures Waiters(tm, l)
  {
  }

  lemma CurrParts(tm: TaskManager, l: List)
    requires tm.Valid() && tm.CurrQueued() && tm.curr != tm.idle && Waiters(tm, l)
    ensures tm.curr in tm.tasks && tm.tasks[tm.curr].run in tm.ready.nodes
    ensures tm.tasks[tm.curr].wait !in l.nodes && tm.tasks[tm.curr].wait !in tm.Footprint()
    ensures tm.tasks[tm.curr].wait.tid == tm.curr && tm !in tm.Footprint()
    ensures tm.tasks[tm.curr].run !in tm.sleep.nodes
  {
  }

  lemma AllWaitSnoc(tm: TaskManager, w: seq<Node>, r: seq<Node>, r': seq<Node>, s: seq<Node>, t: nat)
    requires tm.TasksOk() && AllWait(tm, w, r, s) && t in tm.tasks && t != tm.idle
    requires tm.tasks[t].run !in r' && tm.tasks[t].run !in s && forall i :: 0 <= i < |r'| ==> r'[i] in r
    ensures AllWait(tm, w + [tm.tasks[t].wait], r', s)
  {
  }

  /** The current task blocks on l: out of the ready queue, onto the end of l, dispatch. */
  method BlockOn(tm: TaskManager, l: List)
    requires tm.Valid() && tm.CurrQueued() && tm.curr != tm.idle && Waiters(tm, l)
    modifies l, l.nodes, tm.tasks[tm.curr].wait, tm`curr, tm.Footprint()
    ensures tm.Valid() && Waiters(tm, l)
    ensures tm.View() == Dispatch(SchedSpec.SetBlock(old(tm.View()), old(tm.View()).curr))
    ensures l.nodes == old(l.nodes) + [tm.tasks[old(tm.curr)].wait]
    ensures Tids(l.nodes) == Tids(old(l.nodes)) + [old(tm.curr)]
  {
    hide *;
    tm.ViewCurr();
    tm.InFootprint();
    tm.Parts();
    WaitersParts(tm, l);
    CurrParts(tm, l);
    var t := tm.curr;
    ghost var w, r, s := l.nodes, tm.ready.nodes, tm.sleep.nodes;
    tm.SetBlock(t);
    AllWaitSnoc(tm, w, r, tm.ready.nodes, s, t);
    TidsSnoc(w, tm.tasks[t].wait);
    l.InsertLast(tm.tasks[t].wait);
    tm.Dispatch();
    MakeWaiters(tm, l);
  }

  lemma FirstWaiter(tm: TaskManager, l: List)
    requires tm.Valid() && Waiters(tm, l) && |l.nodes| > 0
    ensures var t := l.nodes[0].tid;
            && t in tm.tasks && t != tm.idle && tm.tasks[t].run !in tm.ready.nodes && tm.tasks[t].run !in tm.sleep.nodes
            && AllWait(tm, l.nodes[1..], tm.ready.nodes + [tm.tasks[t].run], tm.sleep.nodes)
            && Tids(l.nodes)[0] == t && Tids(l.nodes[1..]) == Tids(l.nodes)[1..]
  {
    forall i | 1 <= i < |l.nodes|
      ensures l.nodes[i].tid != l.nodes[0].tid && Waits(tm, l.nodes[i], tm.ready.nodes, tm.sleep.nodes)
    {
      assert l.nodes[0] != l.nodes[i] && Waits(tm, l.nodes[0], tm.ready.nodes, tm.sleep.nodes);
    }
  }

  /** The first waiter leaves l for the ready queue. */
  method WakeFirst(tm: TaskManager, l: List) returns (t: nat)
    requires tm.Valid() && Waiters(tm, l) && |l.nodes| > 0
    modifies l, l.nodes, tm.Footprint()
    ensures tm.Valid() && Waiters(tm, l) && old(l.nodes)[0].tid == t && t in tm.tasks
    ensures tm.View() == SchedSpec.SetReady(old(tm.View()), t) && tm.curr == old(tm.curr)
    ensures l.nodes == old(l.nodes)[1..] && |Tids(old(l.nodes))| > 0 && Tids(old(l.nodes))[0] == t
    ensures Tids(l.nodes) == Tids(old(l.nodes))[1..]
  {
    hide *;
    tm.ViewCurr();
    tm.InFootprint();
    tm.Parts();
    WaitersParts(tm, l);
    FirstWaiter(tm, l);
    var node := l.RemoveFirst();
    t := node.tid;
    tm.SetReady(t);
    MakeWaiters(tm, l);
  }

  ghost predicate Known(tm: TaskManager, owner: Task?) {
    owner == null || (owner.tid in tm.tasks && tm.tasks[owner.tid] == owner)
  }

  lemma OwnerIs(tm: TaskManager, owner: Task?)
    requires tm.TasksOk() && tm.curr in tm.tasks && Known(tm, owner)
    ensures owner == tm.tasks[tm.curr] <==> owner != null && owner.tid == tm.curr
    ensures tm.tasks[tm.curr].tid == tm.curr && Known(tm, tm.tasks[tm.curr]) && Known(tm, null)
    ensures forall t :: t in tm.tasks ==> tm.tasks[t].tid == t && Known(tm, tm.tasks[t])
  {
  }

  /** mutex_t */
  class Mutex {
    var lockedCount: int
    var owner: Task?
    const waitList: List

    ghost predicate Valid(tm: TaskManager)
      reads this, tm, tm.ready, tm.sleep, waitList, waitList.nodes
    {
      Waiters(tm, waitList) && Known(tm, owner)
    }

    ghost function View(): MutexV
      reads this, waitList
    {
      MutexV(lockedCount, if owner == null then None else Some(owner.tid), Tids(waitList.nodes))
    }

    /** mutex_init */
    constructor (tm: TaskManager)
      ensures Valid(tm) && View() == MutexV(0, None, []) && fresh(waitList)
    {
      lockedCount, owner := 0, null;
      waitList := new List();
    }

    lemma Parts(tm: TaskManager)
      requires Valid(tm) && tm.Valid()
      ensures Waiters(tm, waitList) && Known(tm, owner)
      ensures this !in tm.Footprint()
      ensures View().count == lockedCount && View().owner == (if owner == null then None else Some(owner.tid))
      ensures View().waiters == Tids(waitList.nodes)
    {
    }

    lemma Make(tm: TaskManager, m: MutexV)
      requires Waiters(tm, waitList) && Known(tm, owner)
      requires m.count == lockedCount && m.owner == (if owner == null then None else Some(owner.tid))
      requires m.waiters == Tids(waitList.nodes)
      ensures Valid(tm) && View() == m
    {
    }

    /** mutex_lock */
    method Lock(tm: TaskManager)
      requires tm.Valid() && tm.CurrQueued() && tm.curr != tm.idle && Valid(tm)
      modifies this, waitList, waitList.nodes, tm.tasks[tm.curr].wait, tm`curr, tm.Footprint()
      ensures tm.Valid() && Valid(tm)
      ensures (tm.View(), View()) == IpcSpec.Lock(old(tm.View()), old(View()))
    {
      hide *;
      tm.ViewCurr();
      tm.Parts();
      Parts(tm);
      OwnerIs(tm, owner);
      ghost var r := IpcSpec.Lock(tm.View(), View());
      LockParts(tm.View(), View());
      if lockedCount == 0 {
        lockedCount := lockedCount + 1;
        owner := tm.tasks[tm.curr];
      } else if owner == tm.tasks[tm.curr] {
        lockedCount := lockedCount + 1;
      } else {
        BlockOn(tm, waitList);
      }
      Make(tm, r.1);
    }

    /** The first waiter becomes ready and the owner. */
    method HandOver(tm: TaskManager)
      requires tm.Valid() && Waiters(tm, waitList) && |waitList.nodes| > 0
      modifies this, waitList, waitList.nodes, tm`curr, tm.Footprint()
      ensures tm.Valid() && Waiters(tm, waitList)
      ensures |Tids(old(waitList.nodes))| > 0
      ensures tm.View() == Dispatch(SetReady(old(tm.View()), Tids(old(waitList.nodes))[0]))
      ensures owner != null && owner.tid == Tids(old(waitList.nodes))[0] && Known(tm, owner) && lockedCount == 1
      ensures Tids(waitList.nodes) == Tids(old(waitList.nodes))[1..]
    {
      hide *;
      tm.ViewCurr();
      tm.Parts();
      OwnerIs(tm, null);
      NotInFootprint(tm);
      var t := WakeFirst(tm, waitList);
      lockedCount := 1;
      owner := tm.tasks[t];
      KeepWaiters(tm, waitList);
      tm.Dispatch();
      MakeWaiters(tm, waitList);
    }

    lemma NotInFootprint(tm: TaskManager)
      ensures this !in tm.Footprint()
    {
    }

    /** mutex_unlock */
    method Unlock(tm: TaskManager)
      requires tm.Valid() && Valid(tm)
      modifies this, waitList, waitList.nodes, tm`curr, tm.Footprint()
      ensures tm.Valid() && Valid(tm)
      ensures (tm.View(), View()) == IpcSpec.Unlock(old(tm.View()), old(View()))
    {
      hide *;
      tm.ViewCurr();
      tm.Parts();
      Parts(tm);
      WaitersParts(tm, waitList);
      OwnerIs(tm, owner);
      ghost var r := IpcSpec.Unlock(tm.View(), View());
      LockParts(tm.View(), View());
      if owner == tm.tasks[tm.curr] {
        lockedCount := lockedCount - 1;
        if lockedCount == 0 {
          owner := null;
          if waitList.count > 0 {
            HandOver(tm);
          }
        }
      }
      Make(tm, r.1);
    }
  }

  lemma KeepWaiters(tm: TaskManager, l: List)
    requires tm.Valid() && Waiters(tm, l)
    ensures l.Valid() && l !in tm.Footprint() && AllWait(tm, l.nodes, tm.ready.nodes, tm.sleep.nodes)
    ensures forall i :: 0 <= i < |l.nodes| ==> l.nodes[i] !in tm.Footprint()
  {
  }

  /** sem_t */
  class Sem {
    var count: int
    const waitList: List

    ghost predicate Valid(tm: TaskManager)
      reads this, tm, tm.ready, tm.sleep, waitList, waitList.nodes
    {
      Waiters(tm, waitList)
    }

    ghost function View(): SemV
      reads this, waitList
    {
      SemV(count, Tids(waitList.nodes))
    }

    /** sem_init */
    constructor (tm: TaskManager, initCount: int)
      ensures Valid(tm) && View() == SemV(initCount, []) && fresh(waitList)
    {
      count := initCount;
      waitList := new List();
    }

    lemma Parts(tm: TaskManager)
      requires Valid(tm) && tm.Valid()
      ensures Waiters(tm, waitList) && this !in tm.Footprint()
      ensures View().count == count && View().waiters == Tids(waitList.nodes)
    {
    }

    lemma Make(tm: TaskManager, m: SemV)
      requires Waiters(tm, waitList) && m.count == count && m.waiters == Tids(waitList.nodes)
      ensures Valid(tm) && View() == m
    {
    }

    /** sem_wait */
    method Wait(tm: TaskManager)
      requires tm.Valid() && tm.CurrQueued() && tm.curr != tm.idle && Valid(tm)
      modifies this, waitList, waitList.nodes, tm.tasks[tm.curr].wait, tm`curr, tm.Footprint()
      ensures tm.Valid() && Valid(tm)
      ensures (tm.View(), View()) == IpcSpec.Wait(old(tm.View()), old(View()))
    {
      hide *;
      tm.ViewCurr();
      Parts(tm);
      ghost var r := IpcSpec.Wait(tm.View(), View());
      WaitParts(tm.View(), View());
      if count > 0 {
        count := count - 1;
      } else {
        BlockOn(tm, waitList);
      }
      Make(tm, r.1);
    }

    /** sem_notify, which interrupt handlers may call while the idle task is current. */
    method Notify(tm: TaskManager)
      requires tm.Valid() && Valid(tm)
      modifies this, waitList, waitList.nodes, tm`curr, tm.Footprint()
      ensures tm.Valid() && Valid(tm)
      ensures (tm.View(), View()) == IpcSpec.Notify(old(tm.View()), old(View()))
    {
      hide *;
      tm.ViewCurr();
      Parts(tm);
      WaitersParts(tm, waitList);
      ghost var r := IpcSpec.Notify(tm.View(), View());
      WaitParts(tm.View(), View());
      if waitList.count > 0 {
        var t := WakeFirst(tm, waitList);
        KeepWaiters(tm, waitList);
        tm.Dispatch();
        MakeWaiters(tm, waitList);
      } else {
        count := count + 1;
      }
      Make(tm, r.1);
    }
  }
}
