/** One task manager with all its mutexes and semaphores. Every call on the intrusive lists is one step
    of the state machine in Kernel.dfy, so the properties of its runs hold of the lists. */
module KernelHeap {
  import opened IntrusiveList
  import opened SchedSpec
  import opened Scheduler
  import opened IpcSpec
  import opened Ipc
  import opened Kernel
  import opened KernelInv
  import opened KernelRuns

  /** The nodes of a wait list are the wait nodes of tasks other than the idle task. */
  ghost predicate WaitNodes(tm: TaskManager, nodes: seq<Node>) {
    forall i :: 0 <= i < |nodes| ==>
      nodes[i].tid in tm.tasks && nodes[i].tid != tm.idle && nodes[i] == tm.tasks[nodes[i].tid].wait
  }

  ghost predicate ListOk(tm: TaskManager, l: List)
    reads l, l.nodes
  {
    l.Valid() && l !in tm.Footprint() && WaitNodes(tm, l.nodes)
  }

  /** The waiters of the p-th list, mutexes first. */
  function WaitersAt(s: Sys, p: nat): seq<nat>
    requires p < |s.mutexes| + |s.sems|
  {
    if p < |s.mutexes| then s.mutexes[p].waiters else s.sems[p - |s.mutexes|].waiters
  }

  lemma InLists(s: Sys, p: nat, q: nat, x: nat)
    requires p < |s.mutexes| + |s.sems| && q < |s.mutexes| + |s.sems|
    ensures Times(WaitersAt(s, p), x) <= InMutexes(s.mutexes, x) + InSems(s.sems, x)
    ensures p != q ==>
              Times(WaitersAt(s, p), x) + Times(WaitersAt(s, q), x) <= InMutexes(s.mutexes, x) + InSems(s.sems, x)
  {
    hide Times, InMutexes, InSems;
    var n := |s.mutexes|;
    if p < n && q < n && p != q {
      TwoMutexes(s.mutexes, p, q, x);
    }
    if n <= p && n <= q && p != q {
      TwoSems(s.sems, p - n, q - n, x);
    }
    OneList(s, p, x);
    OneList(s, q, x);
  }

  lemma OneList(s: Sys, p: nat, x: nat)
    requires p < |s.mutexes| + |s.sems|
    ensures if p < |s.mutexes| then Times(WaitersAt(s, p), x) <= InMutexes(s.mutexes, x)
            else Times(WaitersAt(s, p), x) <= InSems(s.sems, x)
  {
    hide Times, InMutexes, InSems;
    if p < |s.mutexes| {
      InMutexesAt(s.mutexes, p, s.mutexes[p], x);
    } else {
      InSemsAt(s.sems, p - |s.mutexes|, s.sems[p - |s.mutexes|], x);
    }
  }

  /** A waiter waits in one list only and is in no queue of the scheduler. */
  lemma WaiterPlace(s: Sys, p: nat, q: nat, x: nat)
    requires Inv(s) && p < |s.mutexes| + |s.sems| && q < |s.mutexes| + |s.sems| && x in WaitersAt(s, p)
    ensures x in s.started && x !in s.sch.ready && x !in s.sch.sleep
    ensures s.sch.Get(x).state != Waiting && s.sch.Get(x).state != Zombie
    ensures p != q ==> x !in WaitersAt(s, q)
  {
    hide Times, InMutexes, InSems, Sched.Get;
    InLists(s, p, q, x);
    TimesIn(WaitersAt(s, p), x);
    TimesIn(WaitersAt(s, q), x);
    TimesIn(s.sch.ready, x);
    TimesIn(s.sch.sleep, x);
    assert Places(s, x) == if x in s.started then 1 else 0;
  }

  ghost function MutexViews(m: seq<Mutex>): (v: seq<MutexV>)
    reads m, set x | x in m :: x.waitList
    ensures |v| == |m| && forall i :: 0 <= i < |v| ==> v[i] == m[i].View()
  {
    if m == [] then [] else MutexViews(m[..|m| - 1]) + [m[|m| - 1].View()]
  }

  ghost function SemViews(m: seq<Sem>): (v: seq<SemV>)
    reads m, set x | x in m :: x.waitList
    ensures |v| == |m| && forall i :: 0 <= i < |v| ==> v[i] == m[i].View()
  {
    if m == [] then [] else SemViews(m[..|m| - 1]) + [m[|m| - 1].View()]
  }

  class TaskSystem {
    const tm: TaskManager
    const mutexes: seq<Mutex>
    const sems: seq<Sem>
    ghost var started: set<nat>

    ghost function Lists(): (l: seq<List>)
      ensures |l| == |mutexes| + |sems|
      ensures forall i :: 0 <= i < |mutexes| ==> l[i] == mutexes[i].waitList
      ensures forall i :: 0 <= i < |sems| ==> l[|mutexes| + i] == sems[i].waitList
    {
      seq(|mutexes|, i requires 0 <= i < |mutexes| => mutexes[i].waitList)
      + seq(|sems|, i requires 0 <= i < |sems| => sems[i].waitList)
    }

    /** All objects of the kernel's scheduling state. */
    ghost function Repr(): set<object> {
      {this, tm} + tm.Footprint() + (set i | 0 <= i < |mutexes| :: mutexes[i]) + (set i | 0 <= i < |sems| :: sems[i])
      + (set i | 0 <= i < |Lists()| :: Lists()[i]) + (set t | t in tm.tasks :: tm.tasks[t].wait)
    }

    ghost function View(): Sys
      reads this, tm, tm.ready, tm.sleep, tm.tasks.Values, mutexes, sems, Lists()
    {
      Sys(tm.View(), MutexViews(mutexes), SemViews(sems), started)
    }

    ghost function AllNodes(): set<object>
      reads Lists()
    {
      set p, i | 0 <= p < |Lists()| && 0 <= i < |Lists()[p].nodes| :: Lists()[p].nodes[i]
    }

    /** The pointers: no list is shared, and every wait list holds wait nodes. */
    ghost predicate Shape()
      reads tm, tm.ready, tm.ready.nodes, tm.sleep, tm.sleep.nodes, mutexes, Lists(), AllNodes()
    {
      && tm.Valid()
      && (forall p, q :: 0 <= p < q < |Lists()| ==> Lists()[p] != Lists()[q])
      && (forall p :: 0 <= p < |Lists()| ==> ListOk(tm, Lists()[p]))
      && (forall i :: 0 <= i < |mutexes| ==> Known(tm, mutexes[i].owner))
    }

    ghost predicate Valid()
      reads this, tm, tm.ready, tm.ready.nodes, tm.sleep, tm.sleep.nodes, tm.tasks.Values, mutexes, sems, Lists(),
            AllNodes()
    {
      Shape() && Inv(View())
    }

    /** A task manager with its mutexes and semaphores, in a state that keeps the invariant. */
    constructor (manager: TaskManager, locks: seq<Mutex>, counters: seq<Sem>, ghost running: set<nat>)
      requires manager.Valid() && forall i :: 0 <= i < |locks| ==> locks[i].Valid(manager)
      requires forall i :: 0 <= i < |counters| ==> counters[i].Valid(manager)
      requires forall i, j :: 0 <= i < j < |locks| ==> locks[i].waitList != locks[j].waitList
      requires forall i, j :: 0 <= i < j < |counters| ==> counters[i].waitList != counters[j].waitList
      requires forall i, j :: 0 <= i < |locks| && 0 <= j < |counters| ==> locks[i].waitList != counters[j].waitList
      requires Inv(Sys(manager.View(), MutexViews(locks), SemViews(counters), running))
      ensures Valid() && tm == manager && mutexes == locks && sems == counters && started == running
    {
      hide *;
      tm, mutexes, sems, started := manager, locks, counters, running;
      new;
      Assembled();
    }

    lemma Assembled()
      requires tm.Valid() && Inv(Sys(tm.View(), MutexViews(mutexes), SemViews(sems), started))
      requires forall i :: 0 <= i < |mutexes| ==> mutexes[i].Valid(tm)
      requires forall i :: 0 <= i < |sems| ==> sems[i].Valid(tm)
      requires forall i, j :: 0 <= i < j < |mutexes| ==> mutexes[i].waitList != mutexes[j].waitList
      requires forall i, j :: 0 <= i < j < |sems| ==> sems[i].waitList != sems[j].waitList
      requires forall i, j :: 0 <= i < |mutexes| && 0 <= j < |sems| ==> mutexes[i].waitList != sems[j].waitList
      ensures Valid()
    {
      hide Inv, TaskManager.Valid, TaskManager.Footprint, List.Valid, ListOk, Waiters, MutexViews, SemViews;
      forall p | 0 <= p < |Lists()|
        ensures ListOk(tm, Lists()[p])
      {
        assert Lists()[p] == if p < |mutexes| then mutexes[p].waitList else sems[p - |mutexes|].waitList;
        WaitersOk(Lists()[p]);
      }
    }

    lemma ViewParts()
      ensures View().sch == tm.View() && View().started == started
      ensures |View().mutexes| == |mutexes| && |View().sems| == |sems| && |Lists()| == |mutexes| + |sems|
      ensures forall i :: 0 <= i < |mutexes| ==> View().mutexes[i] == mutexes[i].View()
      ensures forall i :: 0 <= i < |sems| ==> View().sems[i] == sems[i].View()
      ensures forall p :: 0 <= p < |Lists()| ==> WaitersAt(View(), p) == Tids(Lists()[p].nodes)
    {
    }

    lemma Parts()
      requires Valid()
      ensures tm.Valid() && Inv(View()) && View().sch.curr == NextRun(View().sch)
      ensures forall p, q :: 0 <= p < q < |Lists()| ==> Lists()[p] != Lists()[q]
      ensures forall p :: 0 <= p < |Lists()| ==> ListOk(tm, Lists()[p])
      ensures forall i :: 0 <= i < |mutexes| ==> Known(tm, mutexes[i].owner)
    {
    }

    lemma MakeValid(s: Sys)
      requires tm.Valid() && View() == s && Inv(s)
      requires forall p, q :: 0 <= p < q < |Lists()| ==> Lists()[p] != Lists()[q]
      requires forall p :: 0 <= p < |Lists()| ==> ListOk(tm, Lists()[p])
      requires forall i :: 0 <= i < |mutexes| ==> Known(tm, mutexes[i].owner)
      ensures Valid()
    {
    }

    lemma ViewIs(s: Sys)
      requires s.sch == tm.View() && s.started == started && |s.mutexes| == |mutexes| && |s.sems| == |sems|
      requires forall i :: 0 <= i < |mutexes| ==> s.mutexes[i] == mutexes[i].View()
      requires forall i :: 0 <= i < |sems| ==> s.sems[i] == sems[i].View()
      ensures View() == s
    {
      assert MutexViews(mutexes) == s.mutexes && SemViews(sems) == s.sems;
    }

    /** The invariant gives each list method its precondition. */
    lemma ListReady(p: nat)
      requires Valid() && p < |Lists()|
      ensures Waiters(tm, Lists()[p])
    {
      hide Inv, ListOk, List.Valid, WaitersAt;
      ViewParts();
      var l := Lists()[p];
      ListParts(l);
      tm.ViewParts();
      forall i | 0 <= i < |l.nodes|
        ensures Waits(tm, l.nodes[i], tm.ready.nodes, tm.sleep.nodes)
      {
        var x := l.nodes[i].tid;
        assert Tids(l.nodes)[i] == x;
        WaiterPlace(View(), p, p, x);
        NotQueued(x);
      }
    }

    lemma ListParts(l: List)
      requires tm.Valid() && ListOk(tm, l)
      ensures l.Valid() && l !in tm.Footprint() && WaitNodes(tm, l.nodes)
      ensures forall n :: n in l.nodes ==> n !in tm.Footprint()
    {
    }

    lemma NotQueued(x: nat)
      requires tm.Valid() && x in tm.tasks && x !in Tids(tm.ready.nodes) && x !in Tids(tm.sleep.nodes)
      ensures tm.tasks[x].run !in tm.ready.nodes && tm.tasks[x].run !in tm.sleep.nodes
    {
      var r, s := tm.ready.nodes, tm.sleep.nodes;
      assert forall i :: 0 <= i < |r| ==> Tids(r)[i] == r[i].tid && Tids(r)[i] in Tids(r);
      assert forall i :: 0 <= i < |s| ==> Tids(s)[i] == s[i].tid && Tids(s)[i] in Tids(s);
    }

    lemma Framed()
      requires Valid()
      ensures tm.Valid() && tm.CurrQueued() && View().sch.curr == tm.curr && View().sch.idle == tm.idle
      ensures this !in tm.Footprint() && tm !in tm.Footprint()
      ensures this in Repr() && tm in Repr() && tm.Footprint() <= Repr()
      ensures forall p :: 0 <= p < |Lists()| ==> Lists()[p] !in tm.Footprint() && Lists()[p] in Repr()
      ensures forall p, i :: 0 <= p < |Lists()| && 0 <= i < |Lists()[p].nodes| ==>
                Lists()[p].nodes[i] !in tm.Footprint() && Lists()[p].nodes[i] in Repr()
      ensures forall i :: 0 <= i < |mutexes| ==> mutexes[i] !in tm.Footprint() && mutexes[i] in Repr()
      ensures forall i :: 0 <= i < |sems| ==> sems[i] !in tm.Footprint() && sems[i] in Repr()
    {
      hide Inv, List.Valid, TaskManager.View;
      Parts();
      tm.ViewParts();
      CurrIsQueued();
      forall i | 0 <= i < |mutexes|
        ensures mutexes[i] !in tm.Footprint() && mutexes[i] in Repr()
      {
        MutexObject(i);
      }
      forall i | 0 <= i < |sems|
        ensures sems[i] !in tm.Footprint() && sems[i] in Repr()
      {
        SemObject(i);
      }
      forall p | 0 <= p < |Lists()|
        ensures Lists()[p] !in tm.Footprint()
        ensures forall i :: 0 <= i < |Lists()[p].nodes| ==>
                  Lists()[p].nodes[i] !in tm.Footprint() && Lists()[p].nodes[i] in Repr()
      {
        ListParts(Lists()[p]);
      }
    }

    lemma MutexObject(i: nat)
      requires i < |mutexes|
      ensures mutexes[i] !in tm.Footprint() && mutexes[i] in Repr()
    {
    }

    lemma SemObject(i: nat)
      requires i < |sems|
      ensures sems[i] !in tm.Footprint() && sems[i] in Repr()
    {
    }

    lemma CurrIsQueued()
      requires tm.Valid() && tm.View().curr == NextRun(tm.View())
      ensures tm.CurrQueued()
    {
    }

    /** task_time_tick */
    method Tick()
      requires Valid()
      modifies Repr()
      ensures Valid() && Enabled(old(View()), TickOp) && View() == Step(old(View()), TickOp)
    {
      hide *;
      ViewParts();
      Parts();
      Framed();
      ghost var s, lists := View(), Lists();
      TickEnabled(s);
      StepIs(s, TickOp);
      tm.TimeTick();
      StepKeeps(s, TickOp);
      ViewIs(Step(s, TickOp));
      forall p | 0 <= p < |Lists()|
        ensures ListOk(tm, Lists()[p])
      {
        assert lists[p] == if p < |mutexes| then mutexes[p].waitList else sems[p - |mutexes|].waitList;
        assert old(ListOk(tm, lists[p]));
      }
      MakeValid(Step(s, TickOp));
    }

    /** sys_yeild */
    method Yield()
      requires Valid() && Enabled(View(), YieldOp)
      modifies Repr()
      ensures Valid() && Enabled(old(View()), YieldOp) && View() == Step(old(View()), YieldOp)
    {
      hide *;
      ViewParts();
      Parts();
      Framed();
      ghost var s, lists := View(), Lists();
      StepIs(s, YieldOp);
      tm.Yield();
      StepKeeps(s, YieldOp);
      ViewIs(Step(s, YieldOp));
      forall p | 0 <= p < |Lists()|
        ensures ListOk(tm, Lists()[p])
      {
        assert lists[p] == if p < |mutexes| then mutexes[p].waitList else sems[p - |mutexes|].waitList;
        assert old(ListOk(tm, lists[p]));
      }
      MakeValid(Step(s, YieldOp));
    }

    /** sys_sleep */
    method SleepMs(ms: nat)
      requires Valid() && Enabled(View(), SleepOp(ms))
      modifies Repr()
      ensures Valid() && Enabled(old(View()), SleepOp(ms)) && View() == Step(old(View()), SleepOp(ms))
    {
      hide *;
      ViewParts();
      Parts();
      Framed();
      ghost var s, lists := View(), Lists();
      StepIs(s, SleepOp(ms));
      tm.SleepMs(ms);
      StepKeeps(s, SleepOp(ms));
      ViewIs(Step(s, SleepOp(ms)));
      forall p | 0 <= p < |Lists()|
        ensures ListOk(tm, Lists()[p])
      {
        assert lists[p] == if p < |mutexes| then mutexes[p].waitList else sems[p - |mutexes|].waitList;
        assert old(ListOk(tm, lists[p]));
      }
      MakeValid(Step(s, SleepOp(ms)));
    }

    /** the blocking section of sys_wait */
    method WaitBlock()
      requires Valid() && Enabled(View(), WaitChildOp)
      modifies Repr()
      ensures Valid() && Enabled(old(View()), WaitChildOp) && View() == Step(old(View()), WaitChildOp)
    {
      hide *;
      ViewParts();
      Parts();
      Framed();
      ghost var s, lists := View(), Lists();
      StepIs(s, WaitChildOp);
      tm.WaitBlock();
      StepKeeps(s, WaitChildOp);
      ViewIs(Step(s, WaitChildOp));
      forall p | 0 <= p < |Lists()|
        ensures ListOk(tm, Lists()[p])
      {
        assert lists[p] == if p < |mutexes| then mutexes[p].waitList else sems[p - |mutexes|].waitList;
        assert old(ListOk(tm, lists[p]));
      }
      MakeValid(Step(s, WaitChildOp));
    }

    /** The nodes of one wait list are in no other one, and the current task's is in none. */
    lemma Apart(q: nat)
      requires Valid() && q < |Lists()|
      ensures forall p, i :: 0 <= p < |Lists()| && p != q && 0 <= i < |Lists()[p].nodes| ==>
                Lists()[p].nodes[i] !in Lists()[q].nodes
      ensures tm.curr in tm.tasks && tm.tasks[tm.curr].wait in Repr()
      ensures tm.curr != tm.idle ==>
                forall p, i :: 0 <= p < |Lists()| && 0 <= i < |Lists()[p].nodes| ==>
                  Lists()[p].nodes[i] != tm.tasks[tm.curr].wait
    {
      hide Inv, List.Valid, ListOk, WaitersAt, TaskManager.View;
      ViewParts();
      Parts();
      CurrIs();
      forall p, i | 0 <= p < |Lists()| && 0 <= i < |Lists()[p].nodes|
        ensures p != q ==> Lists()[p].nodes[i] !in Lists()[q].nodes
        ensures tm.curr != tm.idle ==> Lists()[p].nodes[i] != tm.tasks[tm.curr].wait
      {
        var n := Lists()[p].nodes[i];
        assert Tids(Lists()[p].nodes)[i] == n.tid;
        WaiterPlace(View(), p, q, n.tid);
        if n in Lists()[q].nodes {
          var j :| 0 <= j < |Lists()[q].nodes| && Lists()[q].nodes[j] == n;
          assert Tids(Lists()[q].nodes)[j] == n.tid;
        }
      }
    }

    lemma CurrIs()
      requires tm.Valid() && tm.View().curr == NextRun(tm.View())
      ensures tm.curr in tm.tasks && tm.tasks[tm.curr].wait.tid == tm.curr
      ensures tm.curr != tm.idle ==> tm.curr in tm.View().ready
    {
    }

    lemma MutexReady(m: nat)
      requires Valid() && m < |mutexes|
      ensures mutexes[m].Valid(tm) && mutexes[m] in Repr() && mutexes[m].waitList == Lists()[m] && Lists()[m] in Repr()
      ensures forall i :: 0 <= i < |mutexes[m].waitList.nodes| ==> mutexes[m].waitList.nodes[i] in Repr()
      ensures forall i :: 0 <= i < |mutexes| && i != m ==> mutexes[i] != mutexes[m]
    {
      hide Inv, ListOk, List.Valid, TaskManager.View, Waiters;
      Parts();
      Framed();
      ListReady(m);
      forall i | 0 <= i < |mutexes| && i != m
        ensures mutexes[i] != mutexes[m]
      {
        assert Lists()[i] != Lists()[m];
      }
    }

    lemma SemReady(k: nat)
      requires Valid() && k < |sems|
      ensures sems[k].Valid(tm) && sems[k] in Repr() && sems[k].waitList == Lists()[|mutexes| + k]
      ensures Lists()[|mutexes| + k] in Repr()
      ensures forall i :: 0 <= i < |sems[k].waitList.nodes| ==> sems[k].waitList.nodes[i] in Repr()
      ensures forall i :: 0 <= i < |sems| && i != k ==> sems[i] != sems[k]
    {
      hide Inv, ListOk, List.Valid, TaskManager.View, Waiters;
      Parts();
      Framed();
      ListReady(|mutexes| + k);
      forall i | 0 <= i < |sems| && i != k
        ensures sems[i] != sems[k]
      {
        assert Lists()[|mutexes| + i] != Lists()[|mutexes| + k];
      }
    }

    lemma WaitersOk(l: List)
      requires Waiters(tm, l)
      ensures ListOk(tm, l)
    {
      hide TaskManager.Footprint, List.Valid;
      forall i | 0 <= i < |l.nodes|
        ensures l.nodes[i].tid in tm.tasks && l.nodes[i].tid != tm.idle
        ensures l.nodes[i] == tm.tasks[l.nodes[i].tid].wait
      {
        assert Waits(tm, l.nodes[i], tm.ready.nodes, tm.sleep.nodes);
      }
    }

    /** mutex_lock of the m-th mutex */
    method Lock(m: nat)
      requires Valid() && Enabled(View(), LockOp(m))
      modifies Repr()
      ensures Valid() && Enabled(old(View()), LockOp(m)) && View() == Step(old(View()), LockOp(m))
    {
      hide *;
      ViewParts();
      Parts();
      Framed();
      ghost var s, lists := View(), Lists();
      StepIs(s, LockOp(m));
      Apart(m);
      MutexReady(m);
      mutexes[m].Lock(tm);
      MutexKept(m);
      StepKeeps(s, LockOp(m));
      ViewIs(Step(s, LockOp(m)));
      forall p | 0 <= p < |Lists()|
        ensures ListOk(tm, Lists()[p])
      {
        assert lists[p] == if p < |mutexes| then mutexes[p].waitList else sems[p - |mutexes|].waitList;
        assert old(ListOk(tm, lists[p]));
      }
      MakeValid(Step(s, LockOp(m)));
    }

    /** mutex_unlock of the m-th mutex */
    method Unlock(m: nat)
      requires Valid() && Enabled(View(), UnlockOp(m))
      modifies Repr()
      ensures Valid() && Enabled(old(View()), UnlockOp(m)) && View() == Step(old(View()), UnlockOp(m))
    {
      hide *;
      ViewParts();
      Parts();
      Framed();
      ghost var s, lists := View(), Lists();
      StepIs(s, UnlockOp(m));
      Apart(m);
      MutexReady(m);
      mutexes[m].Unlock(tm);
      MutexKept(m);
      StepKeeps(s, UnlockOp(m));
      ViewIs(Step(s, UnlockOp(m)));
      forall p | 0 <= p < |Lists()|
        ensures ListOk(tm, Lists()[p])
      {
        assert lists[p] == if p < |mutexes| then mutexes[p].waitList else sems[p - |mutexes|].waitList;
        assert old(ListOk(tm, lists[p]));
      }
      MakeValid(Step(s, UnlockOp(m)));
    }

    /** sem_wait of the k-th semaphore */
    method Wait(k: nat)
      requires Valid() && Enabled(View(), WaitOp(k))
      modifies Repr()
      ensures Valid() && Enabled(old(View()), WaitOp(k)) && View() == Step(old(View()), WaitOp(k))
    {
      hide *;
      ViewParts();
      Parts();
      Framed();
      ghost var s, lists := View(), Lists();
      StepIs(s, WaitOp(k));
      Apart(|mutexes| + k);
      SemReady(k);
      sems[k].Wait(tm);
      SemKept(k);
      StepKeeps(s, WaitOp(k));
      ViewIs(Step(s, WaitOp(k)));
      forall p | 0 <= p < |Lists()|
        ensures ListOk(tm, Lists()[p])
      {
        assert lists[p] == if p < |mutexes| then mutexes[p].waitList else sems[p - |mutexes|].waitList;
        assert old(ListOk(tm, lists[p]));
      }
      MakeValid(Step(s, WaitOp(k)));
    }

    /** sem_notify of the k-th semaphore */
    method Notify(k: nat)
      requires Valid() && Enabled(View(), NotifyOp(k))
      modifies Repr()
      ensures Valid() && Enabled(old(View()), NotifyOp(k)) && View() == Step(old(View()), NotifyOp(k))
    {
      hide *;
      ViewParts();
      Parts();
      Framed();
      ghost var s, lists := View(), Lists();
      StepIs(s, NotifyOp(k));
      Apart(|mutexes| + k);
      SemReady(k);
      sems[k].Notify(tm);
      SemKept(k);
      StepKeeps(s, NotifyOp(k));
      ViewIs(Step(s, NotifyOp(k)));
      forall p | 0 <= p < |Lists()|
        ensures ListOk(tm, Lists()[p])
      {
        assert lists[p] == if p < |mutexes| then mutexes[p].waitList else sems[p - |mutexes|].waitList;
        assert old(ListOk(tm, lists[p]));
      }
      MakeValid(Step(s, NotifyOp(k)));
    }

    lemma MutexKept(m: nat)
      requires m < |mutexes| && mutexes[m].Valid(tm)
      ensures ListOk(tm, mutexes[m].waitList) && Known(tm, mutexes[m].owner)
    {
      WaitersOk(mutexes[m].waitList);
    }

    lemma SemKept(k: nat)
      requires k < |sems| && sems[k].Valid(tm)
      ensures ListOk(tm, sems[k].waitList)
    {
      WaitersOk(sems[k].waitList);
    }

    /** task_init and task_start of a task of the table */
    method Start(t: nat)
      requires Valid() && Enabled(View(), StartOp(t)) && t in tm.tasks
      modifies Repr()
      ensures Valid() && Enabled(old(View()), StartOp(t)) && View() == Step(old(View()), StartOp(t))
    {
      hide *;
      ViewParts();
      Parts();
      Framed();
      ghost var s, lists := View(), Lists();
      StepIs(s, StartOp(t));
      NotInQueues(t);
      tm.InFootprint();
      tm.PutTask(t, NEW_TASK);
      tm.Start(t);
      started := started + {t};
      StepKeeps(s, StartOp(t));
      ViewIs(Step(s, StartOp(t)));
      forall p | 0 <= p < |Lists()|
        ensures ListOk(tm, Lists()[p])
      {
        assert lists[p] == if p < |mutexes| then mutexes[p].waitList else sems[p - |mutexes|].waitList;
        assert old(ListOk(tm, lists[p]));
      }
      MakeValid(Step(s, StartOp(t)));
    }

    /** sys_wait finds the zombie t and clears its table entry. */
    method Reap(t: nat)
      requires Valid() && Enabled(View(), ReapOp(t))
      modifies Repr()
      ensures Valid() && Enabled(old(View()), ReapOp(t)) && View() == Step(old(View()), ReapOp(t))
    {
      hide *;
      ViewParts();
      Parts();
      Framed();
      ghost var s, lists := View(), Lists();
      StepIs(s, ReapOp(t));
      InTable(t);
      tm.InFootprint();
      tm.PutTask(t, TaskV(Created, 0, 0, 0));
      started := started - {t};
      StepKeeps(s, ReapOp(t));
      ViewIs(Step(s, ReapOp(t)));
      forall p | 0 <= p < |Lists()|
        ensures ListOk(tm, Lists()[p])
      {
        assert lists[p] == if p < |mutexes| then mutexes[p].waitList else sems[p - |mutexes|].waitList;
        assert old(ListOk(tm, lists[p]));
      }
      MakeValid(Step(s, ReapOp(t)));
    }

    /** the final section of sys_exit */
    method ExitTail(parent: nat, first: nat, moveChild: bool)
      requires Valid() && Enabled(View(), ExitOp(parent, first, moveChild)) && parent in tm.tasks && first in tm.tasks
      modifies Repr()
      ensures Valid() && Enabled(old(View()), ExitOp(parent, first, moveChild))
      ensures View() == Step(old(View()), ExitOp(parent, first, moveChild))
    {
      hide *;
      ViewParts();
      Parts();
      Framed();
      ghost var s, lists := View(), Lists();
      StepIs(s, ExitOp(parent, first, moveChild));
      WaitersUnqueued(parent);
      WaitersUnqueued(first);
      tm.ExitTail(parent, first, moveChild);
      StepKeeps(s, ExitOp(parent, first, moveChild));
      ViewIs(Step(s, ExitOp(parent, first, moveChild)));
      forall p | 0 <= p < |Lists()|
        ensures ListOk(tm, Lists()[p])
      {
        assert lists[p] == if p < |mutexes| then mutexes[p].waitList else sems[p - |mutexes|].waitList;
        assert old(ListOk(tm, lists[p]));
      }
      MakeValid(Step(s, ExitOp(parent, first, moveChild)));
    }

    /** A task that is not started is in no queue. */
    lemma NotInQueues(t: nat)
      requires Valid() && t !in started && t in tm.tasks
      ensures tm.tasks[t].run !in tm.ready.nodes && tm.tasks[t].run !in tm.sleep.nodes
    {
      hide Times, InMutexes, InSems, Sched.Get, TaskManager.Valid, TaskManager.View, Shape;
      var s := View();
      assert Places(s, t) == 0;
      TimesIn(s.sch.ready, t);
      TimesIn(s.sch.sleep, t);
      ManagerValid();
      tm.ViewParts();
      NotQueued(t);
    }

    lemma ManagerValid()
      requires Valid()
      ensures tm.Valid() && tm.TasksOk()
    {
    }

    lemma InTable(t: nat)
      requires View().sch.Get(t).state == Zombie
      ensures t in tm.tasks
    {
    }

    /** A task that waits for a child is in no queue. */
    lemma WaitersUnqueued(t: nat)
      requires Valid() && t in tm.tasks
      ensures tm.Unqueued(t)
    {
      hide Times, InMutexes, InSems, TaskManager.Valid, TaskManager.View, Shape;
      var s := View();
      assert Places(s, t) == if t in s.started then 1 else 0;
      TimesIn(s.sch.ready, t);
      TimesIn(s.sch.sleep, t);
      ManagerValid();
      tm.ViewParts();
      tm.StateIs(t);
      if tm.tasks[t].state == Waiting {
        NotQueued(t);
      }
    }

    /** The tasks that a call names are in the task table. */
    predicate Named(op: Op) {
      match op
      case StartOp(t) => t in tm.tasks
      case ExitOp(parent, first, _) => parent in tm.tasks && first in tm.tasks
      case _ => true
    }

    /** Any call is the step of the state machine with its name. */
    method Perform(op: Op)
      requires Valid() && Enabled(View(), op) && Named(op)
      modifies Repr()
      ensures Valid() && Enabled(old(View()), op) && View() == Step(old(View()), op)
    {
      hide Valid, View, Enabled, Step, Repr;
      match op {
        case TickOp => Tick();
        case YieldOp => Yield();
        case SleepOp(ms) => SleepMs(ms);
        case LockOp(m) => Lock(m);
        case UnlockOp(m) => Unlock(m);
        case WaitOp(k) => Wait(k);
        case NotifyOp(k) => Notify(k);
        case StartOp(t) => Start(t);
        case WaitChildOp => WaitBlock();
        case ExitOp(parent, first, moveChild) => ExitTail(parent, first, moveChild);
        case ReapOp(t) => Reap(t);
      }
    }

    /** Any series of calls on the lists ends where the run of the state machine ends. */
    method PerformAll(ops: seq<Op>)
      requires Valid() && Runs(View(), ops) && forall i :: 0 <= i < |ops| ==> Named(ops[i])
      modifies Repr()
      ensures Valid() && Runs(old(View()), ops) && View() == Final(old(View()), ops)
    {
      hide *;
      RunStep(View(), ops);
      for i := 0 to |ops|
        invariant Valid() && Runs(View(), ops[i..]) && Final(View(), ops[i..]) == Final(old(View()), ops)
      {
        RunStep(View(), ops[i..]);
        assert ops[i..][0] == ops[i] && ops[i..][1..] == ops[i + 1..];
        Perform(ops[i]);
      }
      assert ops[|ops|..] == [];
      RunStep(View(), []);
    }

    lemma RunStep(s: Sys, ops: seq<Op>)
      requires Runs(s, ops)
      ensures ops == ops[0..] && (ops == [] ==> Final(s, ops) == s)
      ensures ops != [] ==>
                && Enabled(s, ops[0]) && Runs(Step(s, ops[0]), ops[1..])
                && Final(s, ops) == Final(Step(s, ops[0]), ops[1..])
    {
    }

    lemma TickEnabled(s: Sys)
      ensures Enabled(s, TickOp)
    {
    }

    lemma StepIs(s: Sys, op: Op)
      requires Enabled(s, op)
      ensures !op.TickOp? && !op.NotifyOp? ==> s.sch.curr != s.sch.idle
      ensures match op
              case TickOp => Step(s, op) == s.(sch := SchedSpec.Tick(s.sch))
              case YieldOp => Step(s, op) == s.(sch := SchedSpec.Yield(s.sch))
              case SleepOp(ms) => Step(s, op) == s.(sch := SleepFor(s.sch, ms))
              case LockOp(m) =>
                var r := IpcSpec.Lock(s.sch, s.mutexes[m]);
                m < |s.mutexes| && Step(s, op) == s.(sch := r.0, mutexes := s.mutexes[m := r.1])
              case UnlockOp(m) =>
                var r := IpcSpec.Unlock(s.sch, s.mutexes[m]);
                m < |s.mutexes| && Step(s, op) == s.(sch := r.0, mutexes := s.mutexes[m := r.1])
              case WaitOp(k) =>
                var r := IpcSpec.Wait(s.sch, s.sems[k]);
                k < |s.sems| && Step(s, op) == s.(sch := r.0, sems := s.sems[k := r.1])
              case NotifyOp(k) =>
                var r := IpcSpec.Notify(s.sch, s.sems[k]);
                k < |s.sems| && Step(s, op) == s.(sch := r.0, sems := s.sems[k := r.1])
              case StartOp(t) =>
                && t !in s.started && t != s.sch.idle
                && Step(s, op) == s.(sch := SetReady(s.sch.Put(t, NEW_TASK), t), started := s.started + {t})
              case WaitChildOp => Step(s, op) == s.(sch := WaitForChild(s.sch))
              case ExitOp(parent, first, moveChild) => Step(s, op) == s.(sch := Exit(s.sch, parent, first, moveChild))
              case ReapOp(t) =>
                && s.sch.Get(t).state == Zombie
                && Step(s, op) == s.(sch := s.sch.Put(t, TaskV(Created, 0, 0, 0)), started := s.started - {t})
    {
    }
  }

  /** task_first_init with all mutexes and semaphores just initialised: the boot state. */
  method BootSystem(table: map<nat, Task>, first: nat, idle: nat, locks: nat, counts: seq<nat>)
    returns (sys: TaskSystem)
    requires first in table && idle in table && first != idle
    requires forall t :: t in table ==>
               && table[t].tid == t && table[t].run.tid == t && table[t].wait.tid == t && table[t].run != table[t].wait
               && table[t].View() == NEW_TASK
    modifies table[first], table[first].run
    ensures sys.Valid() && sys.tm.tasks == table
    ensures sys.View() == Boot(table.Keys, first, idle, locks, counts)
  {
    hide *;
    var tm := InitManager(table, first, idle, locks, counts);
    var mutexes := InitMutexes(tm, locks);
    var sems := InitSems(tm, counts);
    BootIs(tm, table.Keys, first, mutexes, sems, counts);
    BootInv(table.Keys, first, idle, locks, counts);
    sys := new TaskSystem(tm, mutexes, sems, {first});
    sys.ViewIs(Boot(table.Keys, first, idle, locks, counts));
  }

  /** The task manager with its first task started. */
  method InitManager(table: map<nat, Task>, first: nat, idle: nat, ghost locks: nat, ghost counts: seq<nat>)
    returns (tm: TaskManager)
    requires first in table && idle in table && first != idle
    requires forall t :: t in table ==>
               && table[t].tid == t && table[t].run.tid == t && table[t].wait.tid == t && table[t].run != table[t].wait
               && table[t].View() == NEW_TASK
    modifies table[first], table[first].run
    ensures tm.Valid() && tm.tasks == table && tm.idle == idle
    ensures tm.View() == Boot(table.Keys, first, idle, locks, counts).sch
  {
    hide *;
    tm := new TaskManager(table, idle, first);
    FirstReady(tm, table.Keys, first, locks, counts);
    tm.SetReady(first);
  }

  method InitMutexes(tm: TaskManager, n: nat) returns (mutexes: seq<Mutex>)
    ensures |mutexes| == n
    ensures forall i :: 0 <= i < n ==>
              mutexes[i].Valid(tm) && mutexes[i].View() == MutexV(0, None, []) && fresh(mutexes[i].waitList)
    ensures forall i, j :: 0 <= i < j < n ==> mutexes[i].waitList != mutexes[j].waitList
  {
    hide *;
    mutexes := [];
    while |mutexes| < n
      invariant |mutexes| <= n
      invariant forall i :: 0 <= i < |mutexes| ==>
                  mutexes[i].Valid(tm) && mutexes[i].View() == MutexV(0, None, []) && fresh(mutexes[i].waitList)
      invariant forall i, j :: 0 <= i < j < |mutexes| ==> mutexes[i].waitList != mutexes[j].waitList
    {
      var m := new Mutex(tm);
      mutexes := mutexes + [m];
    }
  }

  method InitSems(tm: TaskManager, counts: seq<nat>) returns (sems: seq<Sem>)
    ensures |sems| == |counts|
    ensures forall i :: 0 <= i < |sems| ==>
              sems[i].Valid(tm) && sems[i].View() == SemV(counts[i], []) && fresh(sems[i].waitList)
    ensures forall i, j :: 0 <= i < j < |sems| ==> sems[i].waitList != sems[j].waitList
  {
    hide *;
    sems := [];
    while |sems| < |counts|
      invariant |sems| <= |counts|
      invariant forall i :: 0 <= i < |sems| ==>
                  sems[i].Valid(tm) && sems[i].View() == SemV(counts[i], []) && fresh(sems[i].waitList)
      invariant forall i, j :: 0 <= i < j < |sems| ==> sems[i].waitList != sems[j].waitList
    {
      var m := new Sem(tm, counts[|sems|]);
      sems := sems + [m];
    }
  }

  lemma FirstReady(tm: TaskManager, ids: set<nat>, first: nat, locks: nat, counts: seq<nat>)
    requires tm.Valid() && first in ids && ids == tm.tasks.Keys && first != tm.idle && tm.curr == first
    requires tm.ready.nodes == tm.sleep.nodes == []
    requires forall t :: t in tm.tasks ==> tm.tasks[t].View() == NEW_TASK
    ensures first in tm.tasks && tm.tasks[first].run !in tm.ready.nodes && tm.tasks[first].run !in tm.sleep.nodes
    ensures SetReady(tm.View(), first) == Boot(ids, first, tm.idle, locks, counts).sch
  {
    hide TaskManager.View, Task.View;
    tm.ViewParts();
    SetReadyParts(tm.View(), first);
    assert tm.View().tasks == map t | t in ids :: NEW_TASK;
    assert Tids([]) == [];
  }

  lemma BootIs(tm: TaskManager, ids: set<nat>, first: nat, mutexes: seq<Mutex>, sems: seq<Sem>, counts: seq<nat>)
    requires first != tm.idle && |sems| == |counts| && tm.View() == Boot(ids, first, tm.idle, |mutexes|, counts).sch
    requires forall i :: 0 <= i < |mutexes| ==> mutexes[i].View() == MutexV(0, None, [])
    requires forall i :: 0 <= i < |sems| ==> sems[i].View() == SemV(counts[i], [])
    ensures Sys(tm.View(), MutexViews(mutexes), SemViews(sems), {first}) == Boot(ids, first, tm.idle, |mutexes|, counts)
  {
    hide TaskManager.View, Mutex.View, Sem.View;
    var b := Boot(ids, first, tm.idle, |mutexes|, counts);
    assert MutexViews(mutexes) == b.mutexes && SemViews(sems) == b.sems;
  }
}
