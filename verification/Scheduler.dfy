/** kernel/core/task.c on the intrusive lists. */
module Scheduler {
  import opened Bits
  import opened IntrusiveList
  import opened SchedSpec

  /** task_t: the fields the scheduler uses and the two list nodes embedded in it. */
  class Task {
    const tid: nat
    var state: State
    var sleepTicks: int
    var timeTicks: int
    var sliceTicks: int
    const run: Node
    const wait: Node

    /** task_init */
    constructor (id: nat)
      ensures tid == id && run.tid == id && wait.tid == id && run != wait && fresh(run) && fresh(wait)
      ensures state == Created && sleepTicks == 0 && timeTicks == sliceTicks == 10
    {
      tid := id;
      state := Created;
      sleepTicks := 0;
      timeTicks := TIME_SLICE;
      sliceTicks := TIME_SLICE;
      run := new Node(id);
      wait := new Node(id);
    }

    ghost function View(): TaskV
      reads this
    {
      TaskV(state, sleepTicks, timeTicks, sliceTicks)
    }

    lemma ViewIs()
      ensures View() == TaskV(state, sleepTicks, timeTicks, sliceTicks)
    {
    }
  }

  ghost function Tids(nodes: seq<Node>): (t: seq<nat>)
    ensures |t| == |nodes| && forall i :: 0 <= i < |nodes| ==> t[i] == nodes[i].tid
  {
    seq(|nodes|, i requires 0 <= i < |nodes| => nodes[i].tid)
  }

  ghost predicate Apart(a: seq<Node>, b: seq<Node>) {
    forall i, j :: 0 <= i < |a| && 0 <= j < |b| ==> a[i] != b[j]
  }

  /** task_manager_t */
  class TaskManager {
    const tasks: map<nat, Task>
    const idle: nat
    const ready: List
    const sleep: List
    var curr: nat

    ghost predicate TasksOk() {
      && idle in tasks
      && forall t :: t in tasks ==>
           tasks[t].tid == t && tasks[t].run.tid == t && tasks[t].wait.tid == t && tasks[t].run != tasks[t].wait
    }

    /** The nodes of a queue are the run nodes of tasks other than the idle task. */
    ghost predicate RunNodes(nodes: seq<Node>) {
      forall i :: 0 <= i < |nodes| ==>
        nodes[i].tid in tasks && nodes[i] == tasks[nodes[i].tid].run && nodes[i].tid != idle
    }

    ghost predicate Queues(r: seq<Node>, s: seq<Node>) {
      RunNodes(r) && RunNodes(s) && Apart(r, s)
    }

    ghost predicate Valid()
      reads this, ready, ready.nodes, sleep, sleep.nodes
    {
      && TasksOk() && curr in tasks && ready != sleep
      && ready.Valid() && sleep.Valid() && Queues(ready.nodes, sleep.nodes)
    }

    ghost function View(): Sched
      reads this, ready, sleep, tasks.Values
    {
      Sched(Tids(ready.nodes), Tids(sleep.nodes), curr, idle, map t | t in tasks :: tasks[t].View())
    }

    /** All objects the scheduler ever changes, besides its own fields. */
    ghost function Footprint(): set<object> {
      {ready, sleep} + (set t | t in tasks :: tasks[t]) + (set t | t in tasks :: tasks[t].run)
    }

    lemma InFootprint()
      requires Valid()
      ensures ready in Footprint() && sleep in Footprint()
      ensures forall i :: 0 <= i < |ready.nodes| ==> ready.nodes[i] in Footprint()
      ensures forall i :: 0 <= i < |sleep.nodes| ==> sleep.nodes[i] in Footprint()
      ensures forall t :: t in tasks ==> tasks[t] in Footprint() && tasks[t].run in Footprint()
    {
    }

    /** task_manager_init: both queues empty, the given task current. */
    constructor (table: map<nat, Task>, idleId: nat, first: nat)
      requires idleId in table && first in table
      requires forall t :: t in table ==>
                 table[t].tid == t && table[t].run.tid == t && table[t].wait.tid == t && table[t].run != table[t].wait
      ensures Valid() && tasks == table && idle == idleId && curr == first
      ensures ready.nodes == [] && sleep.nodes == [] && fresh(ready) && fresh(sleep)
    {
      tasks, idle, curr := table, idleId, first;
      ready := new List();
      sleep := new List();
    }

    lemma ViewIs(s: Sched)
      requires s.ready == Tids(ready.nodes) && s.sleep == Tids(sleep.nodes) && s.curr == curr && s.idle == idle
      requires s.tasks.Keys == tasks.Keys && forall t :: t in tasks ==> s.tasks[t] == tasks[t].View()
      ensures View() == s
    {
    }

    lemma ViewParts()
      requires TasksOk()
      ensures View().ready == Tids(ready.nodes) && View().sleep == Tids(sleep.nodes)
      ensures View().curr == curr && View().idle == idle && View().tasks.Keys == tasks.Keys
      ensures forall t :: t in tasks ==> View().tasks[t] == tasks[t].View() && View().Get(t) == tasks[t].View()
    {
    }

    lemma Parts()
      requires Valid()
      ensures TasksOk() && curr in tasks && idle in tasks && ready != sleep
      ensures ready.Valid() && sleep.Valid() && Queues(ready.nodes, sleep.nodes)
    {
    }

    lemma MakeValid()
      requires TasksOk() && curr in tasks && ready != sleep
      requires ready.Valid() == sleep.Valid() == true && Queues(ready.nodes, sleep.nodes)
      ensures Valid()
    {
    }

    /** Touching the ready queue and one task's run node leaves the sleep queue alone. */
    lemma Separate(t: nat)
      requires TasksOk() && t in tasks && Queues(ready.nodes, sleep.nodes) && tasks[t].run !in sleep.nodes
      ensures forall i, j :: 0 <= i < |ready.nodes| && 0 <= j < |sleep.nodes| ==> ready.nodes[i] != sleep.nodes[j]
      ensures forall j :: 0 <= j < |sleep.nodes| ==> sleep.nodes[j] != tasks[t].run
    {
    }

    lemma QueuesSnoc(r: seq<Node>, s: seq<Node>, t: nat)
      requires TasksOk() && Queues(r, s) && t in tasks && t != idle && tasks[t].run !in s
      ensures Queues(r + [tasks[t].run], s)
    {
    }

    /** The pointer and field updates of task_set_ready. */
    method EnqueueReady(t: nat)
      requires TasksOk() && t in tasks && Queues(ready.nodes, sleep.nodes) && ready != sleep
      requires ready.Valid() == sleep.Valid() == true
      requires tasks[t].run !in ready.nodes && tasks[t].run !in sleep.nodes
      modifies ready, ready.nodes, tasks[t], tasks[t].run
      ensures ready.Valid() == sleep.Valid() == true
      ensures sleep.nodes == old(sleep.nodes) && ready.nodes == old(ready.nodes) + [tasks[t].run]
      ensures tasks[t].View() == old(tasks[t].View()).(state := Ready)
    {
      hide List.Valid, Queues, TasksOk;
      Separate(t);
      ready.InsertLast(tasks[t].run);
      tasks[t].state := Ready;
    }

    method SetReady(t: nat)
      requires Valid() && t in tasks && tasks[t].run !in ready.nodes && tasks[t].run !in sleep.nodes
      modifies ready, ready.nodes, tasks[t], tasks[t].run
      ensures Valid() && View() == SchedSpec.SetReady(old(View()), t)
      ensures sleep.nodes == old(sleep.nodes) && ready.nodes == if t == idle then old(ready.nodes)
              else old(ready.nodes) + [tasks[t].run]
    {
      hide *;
      Parts();
      ViewParts();
      ghost var s, r, sl := View(), ready.nodes, sleep.nodes;
      SetReadyParts(s, t);
      if t == idle {
        return;
      }
      EnqueueReady(t);
      OtherTasks(t);
      TidsSnoc(r, tasks[t].run);
      QueuesSnoc(r, sl, t);
      MakeValid();
      ViewIs(SchedSpec.SetReady(s, t));
    }

    lemma OtherTasks(t: nat)
      requires TasksOk() && t in tasks
      ensures forall x :: x in tasks && x != t ==> tasks[x] != tasks[t]
    {
    }

    /** Taking a run node out of one queue leaves the queues in order. */
    lemma QueuesWithout(r: seq<Node>, s: seq<Node>, r': seq<Node>, t: nat)
      requires TasksOk() && t in tasks && Queues(r, s)
      requires forall n :: n in r' ==> n in r && n != tasks[t].run
      ensures Queues(r', s)
      ensures forall n :: n in r && n.tid == t ==> n == tasks[t].run
    {
      forall i | 0 <= i < |r'|
        ensures r'[i] in r && r'[i] != tasks[t].run
      {
      }
    }

    lemma QueuesSwap(r: seq<Node>, s: seq<Node>)
      requires Queues(r, s)
      ensures Queues(s, r)
    {
    }

    lemma OnlyOwnNode(r: seq<Node>, t: nat)
      requires TasksOk() && t in tasks && RunNodes(r)
      ensures forall i :: 0 <= i < |r| && r[i].tid == tasks[t].run.tid ==> r[i] == tasks[t].run
      ensures tasks[t].run.tid == t
    {
    }

    lemma QueueParts(r: seq<Node>, s: seq<Node>)
      requires Queues(r, s)
      ensures RunNodes(r) && RunNodes(s) && forall n :: n in r ==> n !in s
    {
    }

    method DequeueReady(t: nat)
      requires TasksOk() && t in tasks && Queues(ready.nodes, sleep.nodes) && ready != sleep
      requires ready.Valid() == sleep.Valid() == true && tasks[t].run in ready.nodes
      modifies ready, ready.nodes
      ensures ready.Valid() == sleep.Valid() == true
      ensures sleep.nodes == old(sleep.nodes) && ready.nodes == Without(old(ready.nodes), tasks[t].run)
      ensures tasks[t].run !in ready.nodes
      ensures forall n :: n in ready.nodes ==> n in old(ready.nodes) && n != tasks[t].run
    {
      hide List.Valid, Queues, TasksOk, Without;
      Apartness();
      ready.Remove(tasks[t].run);
    }

    lemma Apartness()
      requires Queues(ready.nodes, sleep.nodes)
      ensures forall i, j :: 0 <= i < |ready.nodes| && 0 <= j < |sleep.nodes| ==> ready.nodes[i] != sleep.nodes[j]
    {
    }

    method SetBlock(t: nat)
      requires Valid() && t in tasks && (t == idle || tasks[t].run in ready.nodes)
      modifies ready, ready.nodes
      ensures Valid() && View() == SchedSpec.SetBlock(old(View()), t)
      ensures sleep.nodes == old(sleep.nodes) && tasks[t].run !in ready.nodes
      ensures forall i :: 0 <= i < |ready.nodes| ==> ready.nodes[i] in old(ready.nodes)
    {
      hide *;
      Parts();
      ViewParts();
      ghost var s, r, sl := View(), ready.nodes, sleep.nodes;
      SetBlockParts(s, t);
      NodePlaces(t);
      if t == idle {
        return;
      }
      QueueParts(r, sl);
      OnlyOwnNode(r, t);
      DequeueReady(t);
      TidsWithout(r, tasks[t].run);
      QueuesWithout(r, sl, ready.nodes, t);
      MakeValid();
      ViewIs(SchedSpec.SetBlock(s, t));
    }

    method EnqueueSleep(t: nat, ticks: nat)
      requires TasksOk() && t in tasks && Queues(ready.nodes, sleep.nodes) && ready != sleep
      requires ready.Valid() == sleep.Valid() == true
      requires tasks[t].run !in ready.nodes && tasks[t].run !in sleep.nodes
      modifies sleep, sleep.nodes, tasks[t], tasks[t].run
      ensures ready.Valid() == sleep.Valid() == true
      ensures ready.nodes == old(ready.nodes) && sleep.nodes == old(sleep.nodes) + [tasks[t].run]
      ensures tasks[t].View() == old(tasks[t].View()).(sleepTicks := ticks, state := Sleep)
    {
      hide List.Valid, Queues, TasksOk;
      Apartness();
      tasks[t].sleepTicks := ticks;
      tasks[t].state := Sleep;
      sleep.InsertLast(tasks[t].run);
    }

    method SetSleep(t: nat, ticks: nat)
      requires Valid() && t in tasks && t != idle && tasks[t].run !in ready.nodes && tasks[t].run !in sleep.nodes
      modifies sleep, sleep.nodes, tasks[t], tasks[t].run
      ensures Valid() && View() == SchedSpec.SetSleep(old(View()), t, ticks)
      ensures ready.nodes == old(ready.nodes)
    {
      hide *;
      Parts();
      ViewParts();
      ghost var s, r, sl := View(), ready.nodes, sleep.nodes;
      SetSleepParts(s, t, ticks);
      if ticks == 0 {
        return;
      }
      EnqueueSleep(t, ticks);
      OtherTasks(t);
      TidsSnoc(sl, tasks[t].run);
      QueuesSwap(r, sl);
      QueuesSnoc(sl, r, t);
      QueuesSwap(sl + [tasks[t].run], r);
      OnlyOwnNode([], t);
      MakeValid();
      ViewIs(SchedSpec.SetSleep(s, t, ticks));
    }

    method DequeueSleep(t: nat)
      requires TasksOk() && t in tasks && Queues(ready.nodes, sleep.nodes) && ready != sleep
      requires ready.Valid() == sleep.Valid() == true && tasks[t].run in sleep.nodes
      modifies sleep, sleep.nodes
      ensures ready.Valid() == sleep.Valid() == true
      ensures ready.nodes == old(ready.nodes) && sleep.nodes == Without(old(sleep.nodes), tasks[t].run)
      ensures tasks[t].run !in sleep.nodes
      ensures forall n :: n in sleep.nodes ==> n in old(sleep.nodes) && n != tasks[t].run
    {
      hide List.Valid, Queues, TasksOk, Without;
      Apartness();
      sleep.Remove(tasks[t].run);
    }

    method SetWakeup(t: nat)
      requires Valid() && t in tasks && tasks[t].run in sleep.nodes
      modifies sleep, sleep.nodes
      ensures Valid() && View() == SchedSpec.SetWakeup(old(View()), t)
      ensures ready.nodes == old(ready.nodes) && sleep.nodes == Without(old(sleep.nodes), tasks[t].run)
      ensures tasks[t].run !in sleep.nodes
    {
      hide *;
      Parts();
      ViewParts();
      ghost var s, r, sl := View(), ready.nodes, sleep.nodes;
      SetWakeupParts(s, t);
      QueueParts(r, sl);
      OnlyOwnNode(sl, t);
      DequeueSleep(t);
      TidsWithout(sl, tasks[t].run);
      QueuesSwap(r, sl);
      QueuesWithout(sl, r, sleep.nodes, t);
      QueuesSwap(sleep.nodes, r);
      MakeValid();
      ViewIs(SchedSpec.SetWakeup(s, t));
    }

    /** task_next_run */
    method NextRun() returns (t: nat)
      requires Valid()
      ensures t in tasks && t == SchedSpec.NextRun(View())
    {
      if ready.count == 0 {
        return idle;
      }
      var node := ready.first;
      t := node.tid;
    }

    /** task_switch_from_to: the processor now runs that task. */
    method SwitchTo(to: nat)
      requires TasksOk() && to in tasks
      modifies this`curr, tasks[to]
      ensures curr == to && tasks[to].View() == old(tasks[to].View()).(state := Running)
    {
      curr := to;
      tasks[to].state := Running;
    }

    method Switch(to: nat)
      requires Valid() && to in tasks && to == SchedSpec.NextRun(View()) && to != curr
      modifies this`curr, tasks[to]
      ensures Valid() && View() == SchedSpec.Dispatch(old(View()))
    {
      hide *;
      Parts();
      ViewParts();
      ghost var s := View();
      DispatchParts(s);
      SwitchTo(to);
      OtherTasks(to);
      MakeValid();
      ViewIs(SchedSpec.Dispatch(s));
    }

    /** task_dispatch */
    method Dispatch()
      requires Valid()
      modifies this`curr, Footprint()
      ensures Valid() && View() == SchedSpec.Dispatch(old(View()))
      ensures ready.nodes == old(ready.nodes) && sleep.nodes == old(sleep.nodes)
    {
      hide *;
      ViewCurr();
      InFootprint();
      DispatchParts(View());
      var to := NextRun();
      if to != curr {
        Switch(to);
      }
    }

    method PutSlice(t: nat, n: int)
      requires Valid() && t in tasks
      modifies tasks[t]
      ensures Valid() && View() == old(View()).Put(t, old(View()).Get(t).(sliceTicks := n))
    {
      hide *;
      Parts();
      ViewParts();
      ghost var s := View();
      tasks[t].ViewIs();
      PutParts(s, t, s.Get(t).(sliceTicks := n));
      tasks[t].sliceTicks := n;
      tasks[t].ViewIs();
      OtherTasks(t);
      MakeValid();
      ViewIs(s.Put(t, s.Get(t).(sliceTicks := n)));
    }

    method PutSleepTicks(t: nat, n: int)
      requires Valid() && t in tasks
      modifies tasks[t]
      ensures Valid() && View() == old(View()).Put(t, old(View()).Get(t).(sleepTicks := n))
    {
      hide *;
      Parts();
      ViewParts();
      ghost var s := View();
      tasks[t].ViewIs();
      PutParts(s, t, s.Get(t).(sleepTicks := n));
      tasks[t].sleepTicks := n;
      tasks[t].ViewIs();
      OtherTasks(t);
      MakeValid();
      ViewIs(s.Put(t, s.Get(t).(sleepTicks := n)));
    }

    /** A queued task's node is in exactly one queue, and the idle task's in none. */
    lemma NodePlaces(t: nat)
      requires Valid() && t in tasks
      ensures tasks[t].run in ready.nodes ==> tasks[t].run !in sleep.nodes
      ensures t == idle ==> tasks[t].run !in ready.nodes && tasks[t].run !in sleep.nodes
    {
    }

    ghost predicate CurrQueued()
      reads this, ready
      requires curr in tasks
    {
      curr == idle || tasks[curr].run in ready.nodes
    }

    /** The first part of task_time_tick: at the end of its slice the current task goes to the end
        of the ready queue. */
    method SliceTick()
      requires Valid() && CurrQueued()
      modifies ready, ready.nodes, tasks[curr], tasks[curr].run
      ensures Valid() && View() == SchedSpec.SliceTick(old(View()))
      ensures sleep.nodes == old(sleep.nodes)
    {
      hide *;
      Parts();
      ViewParts();
      Queued();
      SliceTickParts(View());
      tasks[curr].ViewIs();
      NodePlaces(curr);
      var slice := tasks[curr].sliceTicks - 1;
      if slice == 0 {
        PutSlice(curr, tasks[curr].timeTicks);
        SetBlock(curr);
        SetReady(curr);
      } else {
        PutSlice(curr, slice);
      }
    }

    lemma Queued()
      requires curr in tasks && CurrQueued()
      ensures curr == idle || tasks[curr].run in ready.nodes
    {
    }

    lemma SleeperFacts(node: Node)
      requires Valid() && node in sleep.nodes
      ensures node.tid in tasks && node == tasks[node.tid].run && node.tid != idle && node !in ready.nodes
    {
    }

    /** One turn of the sleep scan: count the sleeper down and move it to the ready queue at 0. */
    method TickSleeperAt(node: Node) returns (woken: bool)
      requires Valid() && node in sleep.nodes
      modifies Footprint()
      ensures Valid() && node.tid in tasks && View() == SchedSpec.TickSleeper(old(View()), node.tid)
      ensures sleep.nodes == if woken then Without(old(sleep.nodes), node) else old(sleep.nodes)
      ensures ready.nodes == if woken then old(ready.nodes) + [node] else old(ready.nodes)
    {
      hide *;
      Parts();
      ViewParts();
      SleeperFacts(node);
      InFootprint();
      var t := node.tid;
      TickSleeperParts(View(), t);
      tasks[t].ViewIs();
      var n := tasks[t].sleepTicks - 1;
      PutSleepTicks(t, n);
      woken := n == 0;
      InFootprint();
      if woken {
        SetWakeup(t);
        InFootprint();
        SetReady(t);
      }
    }

    lemma Distinct()
      requires Valid()
      ensures forall i, j :: 0 <= i < j < |sleep.nodes| ==> sleep.nodes[i] != sleep.nodes[j]
    {
    }

    lemma NextSleeper(kept: seq<Node>, rest: seq<Node>)
      requires Valid() && sleep.nodes == kept + rest && rest != []
      ensures rest[0] in sleep.nodes && rest[0].next == if |rest| > 1 then rest[1] else null
      ensures Without(sleep.nodes, rest[0]) == kept + rest[1..]
      ensures sleep.nodes == kept + [rest[0]] + rest[1..]
    {
      hide Queues, TasksOk, List.Valid, Without;
      Distinct();
      sleep.Neighbours(|kept|);
      WithoutAt(sleep.nodes, |kept|);
      assert (kept + rest)[..|kept|] == kept && (kept + rest)[|kept| + 1..] == rest[1..];
    }

    lemma FirstSleeper()
      requires Valid()
      ensures sleep.first == if sleep.nodes == [] then null else sleep.nodes[0]
    {
    }

    lemma ScanMove(s: Sched, rest: seq<Node>)
      requires rest != []
      ensures ScanSleepers(s, Tids(rest)) == ScanSleepers(SchedSpec.TickSleeper(s, rest[0].tid), Tids(rest[1..]))
    {
      assert Tids(rest)[1..] == Tids(rest[1..]);
    }

    /** The sleep scan of task_time_tick walks the list while it takes nodes out of it: the next
        pointer is read before the node moves. */
    method ScanSleep()
      requires Valid()
      modifies Footprint()
      ensures Valid() && View() == ScanSleepers(old(View()), old(View()).sleep)
    {
      hide *;
      Parts();
      ViewParts();
      FirstSleeper();
      ghost var s := View();
      ghost var kept: seq<Node>, rest := [], sleep.nodes;
      var node := sleep.first;
      while node != null
        invariant Valid() && sleep.nodes == kept + rest && node == (if rest == [] then null else rest[0])
        invariant ScanSleepers(View(), Tids(rest)) == ScanSleepers(s, s.sleep)
        decreases |rest|
      {
        NextSleeper(kept, rest);
        ScanMove(View(), rest);
        var next := node.next;
        var woken := TickSleeperAt(node);
        if !woken {
          kept := kept + [rest[0]];
        }
        rest := rest[1..];
        node := next;
      }
      ScanStep(View(), Tids(rest));
    }

    method PutState(t: nat, st: State)
      requires Valid() && t in tasks
      modifies tasks[t]
      ensures Valid() && View() == old(View()).Put(t, old(View()).Get(t).(state := st))
    {
      hide *;
      Parts();
      ViewParts();
      ghost var s := View();
      tasks[t].ViewIs();
      PutParts(s, t, s.Get(t).(state := st));
      tasks[t].state := st;
      tasks[t].ViewIs();
      OtherTasks(t);
      MakeValid();
      ViewIs(s.Put(t, s.Get(t).(state := st)));
    }

    /** All fields of a task at once, as task_init sets them and sys_wait clears them. */
    method PutTask(t: nat, v: TaskV)
      requires Valid() && t in tasks
      modifies tasks[t]
      ensures Valid() && View() == old(View()).Put(t, v)
    {
      hide *;
      Parts();
      ViewParts();
      ghost var s := View();
      PutParts(s, t, v);
      var task := tasks[t];
      task.state, task.sleepTicks, task.timeTicks, task.sliceTicks := v.state, v.sleepTicks, v.timeTicks, v.sliceTicks;
      tasks[t].ViewIs();
      OtherTasks(t);
      MakeValid();
      ViewIs(s.Put(t, v));
    }

    // ---------------------------------------------------------------- the atomic sections

    /** task_start */
    method Start(t: nat)
      requires Valid() && t in tasks && tasks[t].run !in ready.nodes && tasks[t].run !in sleep.nodes
      modifies Footprint()
      ensures Valid() && View() == SchedSpec.SetReady(old(View()), t)
    {
      hide *;
      InFootprint();
      SetReady(t);
    }

    /** task_time_tick */
    method TimeTick()
      requires Valid() && CurrQueued()
      modifies this`curr, Footprint()
      ensures Valid() && View() == Tick(old(View()))
    {
      hide *;
      ViewCurr();
      InFootprint();
      TopParts(View(), 0);
      SliceTickParts(View());
      SliceTick();
      InFootprint();
      ScanSleep();
      Dispatch();
    }

    lemma ViewCurr()
      requires Valid()
      ensures curr in tasks && View().curr == curr && View().idle == idle
      ensures |View().ready| == ready.count && this !in Footprint()
      ensures ready in Footprint() && tasks[curr] in Footprint() && tasks[curr].run in Footprint()
    {
    }

    /** sys_sleep of a task other than the idle task. */
    method SleepMs(ms: nat)
      requires Valid() && CurrQueued() && curr != idle
      modifies this`curr, Footprint()
      ensures Valid() && View() == SleepFor(old(View()), ms)
    {
      hide *;
      ViewCurr();
      Queued();
      InFootprint();
      NodePlaces(curr);
      TopParts(View(), ms);
      SleepTicksIs(ms);
      SetBlockParts(View(), curr);
      SetBlock(curr);
      InFootprint();
      SetSleep(curr, (ms + OS_TICKS_MS - 1) % TWO_32 / OS_TICKS_MS);
      Dispatch();
    }

    lemma SleepTicksIs(ms: nat)
      ensures OS_TICKS_MS == 10 && TWO_32 > 0 && SleepTicks(ms) == (ms + OS_TICKS_MS - 1) % TWO_32 / OS_TICKS_MS
    {
    }

    /** sys_yeild */
    method Yield()
      requires Valid() && CurrQueued()
      modifies this`curr, Footprint()
      ensures Valid() && View() == SchedSpec.Yield(old(View()))
    {
      hide *;
      ViewCurr();
      Queued();
      NodePlaces(curr);
      TopParts(View(), 0);
      if ready.count > 1 {
        InFootprint();
        SetBlock(curr);
        InFootprint();
        SetReady(curr);
        Dispatch();
      }
    }

    /** The blocking section of sys_wait. */
    method WaitBlock()
      requires Valid() && CurrQueued()
      modifies this`curr, Footprint()
      ensures Valid() && View() == WaitForChild(old(View()))
    {
      hide *;
      ViewCurr();
      Queued();
      InFootprint();
      TopParts(View(), 0);
      SetBlockParts(View(), curr);
      SetBlock(curr);
      ViewCurr();
      PutState(curr, Waiting);
      Dispatch();
    }

    ghost predicate Unqueued(t: nat)
      reads this, ready, sleep, tasks.Values
    {
      t in tasks && (tasks[t].state == Waiting ==> tasks[t].run !in ready.nodes && tasks[t].run !in sleep.nodes)
    }

    lemma UnqueuedIs(t: nat)
      requires Valid() && Unqueued(t)
      ensures t in tasks && View().Get(t).state == tasks[t].state
      ensures tasks[t].state == Waiting ==> tasks[t].run !in ready.nodes && tasks[t].run !in sleep.nodes
    {
    }

    /** The wake-ups in the final section of sys_exit; waiting tasks are in no queue. */
    method WakeTasks(parent: nat, first: nat, moveChild: bool)
      requires Valid() && CurrQueued() && Unqueued(parent) && Unqueued(first)
      modifies Footprint()
      ensures Valid() && CurrQueued() && View() == WakeForExit(old(View()), parent, first, moveChild)
    {
      hide *;
      ViewCurr();
      Queued();
      UnqueuedIs(parent);
      UnqueuedIs(first);
      ExitParts(View(), parent, first, moveChild);
      RunNodesDiffer(parent, first);
      InFootprint();
      if moveChild && parent != first {
        if tasks[first].state == Waiting {
          SetReady(first);
          ViewCurr();
          InFootprint();
        }
      }
      StateIs(parent);
      if tasks[parent].state == Waiting {
        SetReady(parent);
      }
      ViewCurr();
      MakeQueued();
    }

    lemma RunNodesDiffer(a: nat, b: nat)
      requires Valid() && a in tasks && b in tasks
      ensures a != b ==> tasks[a].run != tasks[b].run && tasks[a] != tasks[b]
    {
    }

    lemma StateIs(t: nat)
      requires Valid() && t in tasks
      ensures View().Get(t).state == tasks[t].state
    {
    }

    lemma MakeQueued()
      requires curr in tasks && (curr == idle || tasks[curr].run in ready.nodes)
      ensures CurrQueued()
    {
    }

    /** The final section of sys_exit. */
    method ExitTail(parent: nat, first: nat, moveChild: bool)
      requires Valid() && CurrQueued() && Unqueued(parent) && Unqueued(first)
      modifies this`curr, Footprint()
      ensures Valid() && View() == Exit(old(View()), parent, first, moveChild)
    {
      hide *;
      ViewCurr();
      ExitParts(View(), parent, first, moveChild);
      WakeTasks(parent, first, moveChild);
      ViewCurr();
      PutState(curr, Zombie);
      ViewCurr();
      Queued();
      InFootprint();
      SetBlock(curr);
      Dispatch();
    }
  }

  lemma TidsSnoc(nodes: seq<Node>, n: Node)
    ensures Tids(nodes + [n]) == Tids(nodes) + [n.tid]
  {
  }

  /** In a queue of distinct tasks, removing the node removes the task id. */
  lemma {:induction false} TidsWithout(nodes: seq<Node>, n: Node)
    requires forall i :: 0 <= i < |nodes| ==> nodes[i].tid == n.tid ==> nodes[i] == n
    ensures Tids(Without(nodes, n)) == Without(Tids(nodes), n.tid)
    decreases |nodes|
  {
    if nodes != [] {
      assert Tids(nodes)[1..] == Tids(nodes[1..]);
      TidsWithout(nodes[1..], n);
      if nodes[0] != n {
        assert Tids([nodes[0]] + Without(nodes[1..], n)) == [nodes[0].tid] + Tids(Without(nodes[1..], n));
      }
    }
  }
}
