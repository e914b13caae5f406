/** The shape of one timer tick, and the effect of every scheduler function on where tasks are. */
module KernelTick {
  import opened IntrusiveList
  import opened SchedSpec
  import opened Kernel

  /** The sleepers of q whose last tick this is, in queue order. */
  function Due(q: seq<nat>, s: Sched): seq<nat> {
    if q == [] then [] else (if s.Get(q[0]).sleepTicks == 1 then [q[0]] else []) + Due(q[1..], s)
  }

  /** The other sleepers, in queue order. */
  function Later(q: seq<nat>, s: Sched): seq<nat> {
    if q == [] then [] else (if s.Get(q[0]).sleepTicks == 1 then [] else [q[0]]) + Later(q[1..], s)
  }

  /** A sleeper after the tick. */
  function Ticked(v: TaskV): TaskV {
    if v.sleepTicks == 1 then v.(sleepTicks := 0, state := Ready) else v.(sleepTicks := v.sleepTicks - 1)
  }

  lemma {:induction false} DueFrame(q: seq<nat>, s: Sched, r: Sched)
    requires forall i :: 0 <= i < |q| ==> s.Get(q[i]) == r.Get(q[i])
    ensures Due(q, s) == Due(q, r) && Later(q, s) == Later(q, r)
  {
    if q != [] {
      DueFrame(q[1..], s, r);
    }
  }

  lemma {:induction false} DueCount(q: seq<nat>, s: Sched, x: nat)
    ensures Times(Due(q, s), x) + Times(Later(q, s), x) == Times(q, x)
    ensures x in Due(q, s) <==> x in q && s.Get(x).sleepTicks == 1
    ensures x in Later(q, s) <==> x in q && s.Get(x).sleepTicks != 1
  {
    if q != [] {
      assert q == [q[0]] + q[1..];
      DueCount(q[1..], s, x);
    }
  }

  lemma WithoutMiddle(kept: seq<nat>, rest: seq<nat>)
    requires rest != [] && rest[0] !in kept
    ensures Without(kept + rest, rest[0]) == kept + rest[1..]
  {
    WithoutAt(kept + rest, |kept|);
    assert (kept + rest)[..|kept|] == kept && (kept + rest)[|kept| + 1..] == rest[1..];
  }

  ghost predicate Apart(kept: seq<nat>, rest: seq<nat>) {
    && (forall i, j :: 0 <= i < |kept| && 0 <= j < |rest| ==> kept[i] != rest[j])
    && (forall i, j :: 0 <= i < j < |rest| ==> rest[i] != rest[j])
  }

  lemma TickSleeperEffect(s: Sched, t: nat, kept: seq<nat>, rest: seq<nat>)
    requires s.sleep == kept + rest && rest != [] && rest[0] == t && t !in kept && t != s.idle
    ensures var r := TickSleeper(s, t);
            && r.curr == s.curr && r.idle == s.idle
            && r.ready == (if s.Get(t).sleepTicks == 1 then s.ready + [t] else s.ready)
            && r.sleep == (if s.Get(t).sleepTicks == 1 then kept + rest[1..] else s.sleep)
            && forall x :: r.Get(x) == if x == t then Ticked(s.Get(x)) else s.Get(x)
  {
    WithoutMiddle(kept, rest);
  }

  /** The scan wakes exactly the sleepers whose last tick this is, in queue order, and counts every
      other one down. */
  lemma {:induction false} ScanShape(s: Sched, kept: seq<nat>, rest: seq<nat>)
    requires s.sleep == kept + rest && Apart(kept, rest) && s.idle !in rest
    ensures var r := ScanSleepers(s, rest);
            && r.ready == s.ready + Due(rest, s) && r.sleep == kept + Later(rest, s)
            && r.curr == s.curr && r.idle == s.idle
            && forall x :: r.Get(x) == if x in rest then Ticked(s.Get(x)) else s.Get(x)
    decreases |rest|
  {
    hide *;
    ScanStep(s, rest);
    DueStep(rest, s);
    if rest != [] {
      var t := rest[0];
      ApartStep(kept, rest);
      TickSleeperEffect(s, t, kept, rest);
      var s1 := TickSleeper(s, t);
      var kept' := if s.Get(t).sleepTicks == 1 then kept else kept + [t];
      assert s1.sleep == kept' + rest[1..];
      ScanShape(s1, kept', rest[1..]);
      DueFrame(rest[1..], s, s1);
      assert rest == [t] + rest[1..];
    }
  }

  lemma DueStep(q: seq<nat>, s: Sched)
    ensures q != [] && s.Get(q[0]).sleepTicks == 1 ==>
              Due(q, s) == [q[0]] + Due(q[1..], s) && Later(q, s) == Later(q[1..], s)
    ensures q != [] && s.Get(q[0]).sleepTicks != 1 ==>
              Due(q, s) == Due(q[1..], s) && Later(q, s) == [q[0]] + Later(q[1..], s)
    ensures q == [] ==> Due(q, s) == Later(q, s) == []
  {
  }

  lemma ApartStep(kept: seq<nat>, rest: seq<nat>)
    requires Apart(kept, rest) && rest != []
    ensures rest[0] !in kept && rest[0] !in rest[1..] && Apart(kept, rest[1..]) && Apart(kept + [rest[0]], rest[1..])
  {
  }

  /** The ready queue after the time slice part of a tick. */
  function Rotated(s: Sched): seq<nat> {
    if s.curr != s.idle && s.Get(s.curr).sliceTicks == 1 && |s.ready| > 0 then s.ready[1..] + [s.ready[0]] else s.ready
  }

  /** The current task after the time slice part of a tick. */
  function Sliced(s: Sched): TaskV {
    var v := s.Get(s.curr);
    if v.sliceTicks != 1 then v.(sliceTicks := v.sliceTicks - 1)
    else if s.curr == s.idle then v.(sliceTicks := v.timeTicks)
    else v.(sliceTicks := v.timeTicks, state := Ready)
  }

  lemma SliceShape(s: Sched)
    requires s.curr == NextRun(s)
    ensures var r := SliceTick(s);
            && r.ready == Rotated(s) && r.sleep == s.sleep && r.curr == s.curr && r.idle == s.idle
            && forall x :: r.Get(x) == if x == s.curr then Sliced(s) else s.Get(x)
  {
    if s.curr != s.idle {
      WithoutAt(s.ready, 0);
      assert s.ready[..0] + s.ready[1..] == s.ready[1..];
    }
  }

  /** t as the dispatch at the end of an operation leaves it. */
  function Run(s: Sched, t: nat, v: TaskV): TaskV {
    if t == NextRun(s) && t != s.curr then v.(state := Running) else v
  }

  lemma DispatchShape(s: Sched)
    ensures var r := Dispatch(s);
            && r.ready == s.ready && r.sleep == s.sleep && r.idle == s.idle && r.curr == NextRun(s) == NextRun(r)
            && forall x :: r.Get(x) == Run(s, x, s.Get(x))
  {
  }

  /** The fields of x after a tick. */
  ghost predicate AfterTick(s: Sched, r: Sched, x: nat) {
    && r.Get(x).timeTicks == s.Get(x).timeTicks
    && r.Get(x).sleepTicks == (if x in s.sleep then s.Get(x).sleepTicks - 1 else s.Get(x).sleepTicks)
    && r.Get(x).sliceTicks == (if x != s.curr then s.Get(x).sliceTicks
                               else if s.Get(x).sliceTicks == 1 then s.Get(x).timeTicks else s.Get(x).sliceTicks - 1)
    && (r.Get(x).state == s.Get(x).state
        || ((r.Get(x).state.Ready? || r.Get(x).state.Running?) && (x in r.ready || x == s.idle)))
  }

  /** One timer tick: the ready queue is rotated when the slice of the current task ends, then the
      sleepers that are due follow in the order in which they slept; the rest keep their order. */
  lemma TickShape(s: Sched)
    requires s.curr == NextRun(s) && Apart([], s.sleep) && s.idle !in s.sleep && s.curr !in s.sleep
    ensures var r := Tick(s);
            && r.ready == Rotated(s) + Due(s.sleep, s) && r.sleep == Later(s.sleep, s) && r.idle == s.idle
            && r.curr == NextRun(r) && forall x :: AfterTick(s, r, x)
  {
    hide *;
    var s1 := SliceTick(s);
    SliceShape(s);
    TopParts(s, 0);
    CurrOnly(s, s1);
    DueFrame(s.sleep, s, s1);
    assert s1.sleep == [] + s.sleep;
    ScanShape(s1, [], s.sleep);
    var s2 := ScanSleepers(s1, s.sleep);
    DispatchShape(s2);
    assert s2.sleep == Later(s.sleep, s);
    forall x
      ensures AfterTick(s, Tick(s), x)
    {
      TickAt(s, s1, s2, Tick(s), x);
    }
  }

  lemma CurrOnly(s: Sched, s1: Sched)
    requires s.curr !in s.sleep && forall x :: s1.Get(x) == if x == s.curr then Sliced(s) else s.Get(x)
    ensures forall i :: 0 <= i < |s.sleep| ==> s.Get(s.sleep[i]) == s1.Get(s.sleep[i])
  {
  }

  lemma TickAt(s: Sched, s1: Sched, s2: Sched, r: Sched, x: nat)
    requires s.curr == NextRun(s) && s.curr !in s.sleep && s2.curr == s.curr && s2.idle == s.idle
    requires r.ready == s2.ready == Rotated(s) + Due(s.sleep, s)
    requires s1.Get(x) == if x == s.curr then Sliced(s) else s.Get(x)
    requires s2.Get(x) == if x in s.sleep then Ticked(s1.Get(x)) else s1.Get(x)
    requires r.Get(x) == Run(s2, x, s2.Get(x))
    ensures AfterTick(s, r, x)
  {
    hide *;
    DueCount(s.sleep, s, x);
    RotatedIn(s);
    RunIs(s2, x, s2.Get(x));
    SlicedIs(s);
    var w := r.Get(x);
    if x in s.sleep {
      TickedIs(s.Get(x));
    }
    MakeAfterTick(s, r, x);
  }

  lemma RunIs(s: Sched, t: nat, v: TaskV)
    ensures Run(s, t, v) == v || (Run(s, t, v) == v.(state := Running) && (t in s.ready || t == s.idle))
  {
  }

  lemma TickedIs(v: TaskV)
    ensures var w := Ticked(v);
            && w.sleepTicks == v.sleepTicks - 1 && w.timeTicks == v.timeTicks && w.sliceTicks == v.sliceTicks
            && (w.state == v.state || (w.state.Ready? && v.sleepTicks == 1))
  {
  }

  lemma SlicedIs(s: Sched)
    ensures var v, w := s.Get(s.curr), Sliced(s);
            && w.sleepTicks == v.sleepTicks && w.timeTicks == v.timeTicks
            && (w.state == v.state || (w.state.Ready? && s.curr != s.idle))
            && w.sliceTicks == if v.sliceTicks == 1 then v.timeTicks else v.sliceTicks - 1
  {
  }

  lemma MakeAfterTick(s: Sched, r: Sched, x: nat)
    requires r.Get(x).timeTicks == s.Get(x).timeTicks
    requires r.Get(x).sleepTicks == (if x in s.sleep then s.Get(x).sleepTicks - 1 else s.Get(x).sleepTicks)
    requires r.Get(x).sliceTicks == (if x != s.curr then s.Get(x).sliceTicks
                                     else if s.Get(x).sliceTicks == 1 then s.Get(x).timeTicks
                                     else s.Get(x).sliceTicks - 1)
    requires r.Get(x).state == s.Get(x).state
             || ((r.Get(x).state.Ready? || r.Get(x).state.Running?) && (x in r.ready || x == s.idle))
    ensures AfterTick(s, r, x)
  {
  }

  lemma RotatedIn(s: Sched)
    requires s.curr == NextRun(s)
    ensures s.curr == s.idle || s.curr in Rotated(s)
  {
  }
}
