/** The output side of a terminal with any number of writers, interleaved with everything else the
    kernel does. The semaphore osem starts at the size of the output buffer. */
module TtySystem {
  import opened IpcSpec
  import opened Kernel
  import opened KernelInv
  import opened KernelIpc
  import Tty

  /** holders: tasks whose sem_wait has returned and whose put is still to come. pending: tasks that
      have taken a character and whose sem_notify is still to come. put and shown: all characters
      put in and taken out so far. failed: some put found the buffer full. */
  datatype Terminal = Terminal(sys: Sys, fifo: seq<char>, holders: multiset<nat>, pending: multiset<nat>,
                               put: seq<char>, shown: seq<char>, failed: bool)

  datatype Act =
    | Other(op: Op)
    | TakeSpace
    | PutChar(c: char)
    | GetChar
    | GiveSpace

  /** tty_write puts after its own sem_wait returned; console_write notifies after each get. */
  predicate CanAct(s: Terminal, a: Act, k: nat)
    requires k < |s.sys.sems|
  {
    match a
    case Other(op) => op != WaitOp(k) && op != NotifyOp(k) && Enabled(s.sys, op)
    case TakeSpace => Enabled(s.sys, WaitOp(k))
    case PutChar(_) => s.sys.sch.curr != s.sys.sch.idle && s.sys.sch.curr in s.holders
    case GetChar => s.sys.sch.curr != s.sys.sch.idle
    case GiveSpace => s.sys.sch.curr != s.sys.sch.idle && s.sys.sch.curr in s.pending
  }

  ghost function Do(s: Terminal, a: Act, k: nat): Terminal
    requires k < |s.sys.sems| && CanAct(s, a, k)
  {
    var me := s.sys.sch.curr;
    match a
    case Other(op) => s.(sys := Step(s.sys, op))
    case TakeSpace =>
      var sys' := Step(s.sys, WaitOp(k));
      if k < |sys'.sems| && me in sys'.sems[k].waiters then s.(sys := sys')
      else s.(sys := sys', holders := s.holders + multiset{me})
    case PutChar(c) =>
      if |s.fifo| < Tty.TTY_OBUF_SIZE then
        s.(fifo := s.fifo + [c], put := s.put + [c], holders := s.holders - multiset{me})
      else s.(failed := true, holders := s.holders - multiset{me})
    case GetChar =>
      if s.fifo == [] then s
      else s.(fifo := s.fifo[1..], shown := s.shown + [s.fifo[0]], pending := s.pending + multiset{me})
    case GiveSpace =>
      var sys' := Step(s.sys, NotifyOp(k));
      var woken := if k < |sys'.sems| then Gone(s.sys.sems[k].waiters, sys'.sems[k].waiters) else [];
      s.(sys := sys', pending := s.pending - multiset{me}, holders := s.holders + multiset(woken))
  }

  /** Every unit of buffer space is free, promised to a writer, filled, or being given back. */
  ghost predicate Balanced(s: Terminal, k: nat) {
    && Inv(s.sys) && k < |s.sys.sems|
    && s.sys.sems[k].count + |s.holders| + |s.fifo| + |s.pending| == Tty.TTY_OBUF_SIZE
    && s.put == s.shown + s.fifo && !s.failed
  }

  lemma ActKeeps(s: Terminal, a: Act, k: nat)
    requires Balanced(s, k) && CanAct(s, a, k)
    ensures Balanced(Do(s, a, k), k)
  {
    match a
    case Other(op) => OtherKeeps(s, op, k);
    case TakeSpace => TakeKeeps(s, k);
    case GiveSpace => GiveKeeps(s, k);
    case GetChar => GetKeeps(s, k);
    case PutChar(c) => assert |s.holders - multiset{s.sys.sch.curr}| == |s.holders| - 1;
  }

  lemma OtherKeeps(s: Terminal, op: Op, k: nat)
    requires Balanced(s, k) && CanAct(s, Other(op), k)
    ensures Balanced(Do(s, Other(op), k), k)
  {
    hide Inv, Step, Enabled, Gone;
    StepKeeps(s.sys, op);
    OtherSemOps(s.sys, op, k);
  }

  lemma TakeKeeps(s: Terminal, k: nat)
    requires Balanced(s, k) && CanAct(s, TakeSpace, k)
    ensures Balanced(Do(s, TakeSpace, k), k)
  {
    hide Inv, Step, Enabled, Gone;
    SemIsOk(s.sys, k);
    StepKeeps(s.sys, WaitOp(k));
    StepSem(s.sys, WaitOp(k), k);
    WaitGone(s.sys, k);
  }

  lemma GiveKeeps(s: Terminal, k: nat)
    requires Balanced(s, k) && CanAct(s, GiveSpace, k)
    ensures Balanced(Do(s, GiveSpace, k), k)
  {
    hide Inv, Step, Enabled, Gone;
    SemIsOk(s.sys, k);
    NotifyEnabled(s.sys, k);
    StepKeeps(s.sys, NotifyOp(k));
    StepSem(s.sys, NotifyOp(k), k);
  }

  lemma GetKeeps(s: Terminal, k: nat)
    requires Balanced(s, k) && CanAct(s, GetChar, k)
    ensures Balanced(Do(s, GetChar, k), k)
  {
    hide Inv;
    if s.fifo != [] {
      assert s.fifo == [s.fifo[0]] + s.fifo[1..];
    }
  }

  lemma NotifyEnabled(s: Sys, k: nat)
    requires k < |s.sems|
    ensures Enabled(s, NotifyOp(k))
  {
  }

  lemma WaitGone(s: Sys, k: nat)
    requires Inv(s) && Enabled(s, WaitOp(k))
    ensures k < |s.sems| && k < |Step(s, WaitOp(k)).sems|
    ensures Gone(s.sems[k].waiters, Step(s, WaitOp(k)).sems[k].waiters) == []
  {
    hide Inv, Wait;
    var w := s.sems[k].waiters;
    WaitParts(s.sch, s.sems[k]);
    GoneNone(w, w);
    GoneNone(w, w + [s.sch.curr]);
  }

  ghost predicate Acts(s: Terminal, acts: seq<Act>, k: nat)
    decreases |acts|
  {
    acts == [] || (k < |s.sys.sems| && CanAct(s, acts[0], k) && Acts(Do(s, acts[0], k), acts[1..], k))
  }

  ghost function Reached(s: Terminal, acts: seq<Act>, k: nat): Terminal
    requires Acts(s, acts, k)
    decreases |acts|
  {
    if acts == [] then s else Reached(Do(s, acts[0], k), acts[1..], k)
  }

  /** tty_open */
  function Opened(sys: Sys): Terminal {
    Terminal(sys, [], multiset{}, multiset{}, [], [], false)
  }

  lemma {:induction false} ActsKeep(s: Terminal, acts: seq<Act>, k: nat)
    requires Balanced(s, k) && Acts(s, acts, k)
    ensures Balanced(Reached(s, acts, k), k)
    decreases |acts|
  {
    hide Balanced, Do, CanAct;
    if acts != [] {
      ActKeeps(s, acts[0], k);
      ActsKeep(Do(s, acts[0], k), acts[1..], k);
    }
  }

  /** From an opened terminal, whatever the writers and everybody else do: no put ever finds the
      buffer full, the console takes out exactly what was put in, in order, and count + promised +
      filled + being given back stays 512. */
  lemma OutputNeverFails(sys: Sys, acts: seq<Act>, k: nat)
    requires Inv(sys) && k < |sys.sems| && sys.sems[k] == SemV(512, []) && Acts(Opened(sys), acts, k)
    ensures var s := Reached(Opened(sys), acts, k);
            && !s.failed && s.put == s.shown + s.fifo && |s.fifo| <= 512 && k < |s.sys.sems|
            && s.sys.sems[k].count + |s.holders| + |s.fifo| + |s.pending| == 512
            && (forall c :: k < |s.sys.sems| && CanAct(s, PutChar(c), k) ==> |s.fifo| < 512)
  {
    hide Inv, Acts, Reached;
    ActsKeep(Opened(sys), acts, k);
    var s := Reached(Opened(sys), acts, k);
    SemIsOk(s.sys, k);
    assert s.sys.sch.curr in s.holders ==> |s.holders| >= 1;
  }
}
