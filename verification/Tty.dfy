/** kernel/dev/tty.c: the ring buffer, and the output side of a terminal with one writer. */
module Tty {
  import opened SchedSpec
  import opened Scheduler
  import opened IpcSpec
  import opened Ipc

  const TTY_OBUF_SIZE: nat := 512

  /** n characters of a ring buffer from position r on. */
  function Window(b: seq<char>, r: nat, n: nat): (s: seq<char>)
    requires r < |b| && n <= |b|
    ensures |s| == n && forall i :: 0 <= i < n ==> s[i] == b[if r + i < |b| then r + i else r + i - |b|]
  {
    seq(n, i requires 0 <= i < n => b[if r + i < |b| then r + i else r + i - |b|])
  }

  /** tty_fifo_t */
  class Fifo {
    const buf: array<char>
    var read: int
    var write: int
    var count: int

    ghost predicate Valid()
      reads this
    {
      && buf.Length > 0 && 0 <= read < buf.Length && 0 <= count <= buf.Length
      && write == Wrap(read + count)
    }

    function Wrap(i: int): int {
      if i < buf.Length then i else i - buf.Length
    }

    /** The characters between the read and the write position, oldest first. */
    ghost function Contents(): (s: seq<char>)
      requires Valid()
      reads this, buf
    {
      Window(buf[..], read, count)
    }

    /** tty_fifo_init */
    constructor (size: nat)
      requires size > 0
      ensures Valid() && Contents() == [] && buf.Length == size && fresh(buf)
    {
      buf := new char[size];
      read, write, count := 0, 0, 0;
    }

    /** tty_fifo_put */
    method Put(c: char) returns (err: int)
      requires Valid()
      modifies this, buf
      ensures Valid()
      ensures if |old(Contents())| < buf.Length then err == 0 && Contents() == old(Contents()) + [c]
              else err == -1 && Contents() == old(Contents())
    {
      if count >= buf.Length {
        return -1;
      }
      buf[write] := c;
      write := write + 1;
      if write >= buf.Length {
        write := 0;
      }
      count := count + 1;
      return 0;
    }

    /** tty_fifo_get */
    method Get() returns (err: int, c: char)
      requires Valid()
      modifies this
      ensures Valid()
      ensures if old(Contents()) == [] then err == -1 && Contents() == []
              else err == 0 && [c] + Contents() == old(Contents())
    {
      c := '\0';
      if count <= 0 {
        return -1, c;
      }
      c := buf[read];
      read := read + 1;
      if read >= buf.Length {
        read := 0;
      }
      count := count - 1;
      return 0, c;
    }
  }

  /** What a terminal shows for s: with crlf, every newline becomes carriage return and newline. */
  function Expand(s: seq<char>, crlf: bool): seq<char> {
    if s == [] then [] else (if s[0] == '\n' && crlf then ['\r', '\n'] else [s[0]]) + Expand(s[1..], crlf)
  }

  lemma {:induction false} ExpandSnoc(s: seq<char>, c: char, crlf: bool)
    ensures Expand(s + [c], crlf) == Expand(s, crlf) + if c == '\n' && crlf then ['\r', '\n'] else [c]
  {
    if s == [] {
      assert s + [c] == [c];
    } else {
      assert (s + [c])[1..] == s[1..] + [c];
      ExpandSnoc(s[1..], c, crlf);
    }
  }

  /** Dropping the carriage returns that expansion adds gives the text back, if it had none. */
  function Plain(s: seq<char>): seq<char> {
    if s == [] then [] else (if s[0] == '\r' then [] else [s[0]]) + Plain(s[1..])
  }

  lemma {:induction false} ExpandPlain(s: seq<char>, crlf: bool)
    requires '\r' !in s
    ensures Plain(Expand(s, crlf)) == s
  {
    if s != [] {
      ExpandPlain(s[1..], crlf);
      var e := Expand(s, crlf);
      if s[0] == '\n' && crlf {
        assert e[1..] == ['\n'] + Expand(s[1..], crlf);
        assert e[1..][1..] == Expand(s[1..], crlf);
      } else {
        assert e[1..] == Expand(s[1..], crlf);
      }
    }
  }

  lemma QueuedView(tm: TaskManager)
    requires tm.Valid()
    ensures tm.View().curr == tm.curr && tm.View().idle == tm.idle
    ensures tm.curr != tm.idle && tm.CurrQueued() ==> tm.View().curr in tm.View().ready
    ensures tm.View().curr in tm.View().ready ==> tm.CurrQueued()
  {
    if tm.curr != tm.idle && tm.CurrQueued() {
      var i :| 0 <= i < |tm.ready.nodes| && tm.ready.nodes[i] == tm.tasks[tm.curr].run;
      assert tm.View().ready[i] == tm.curr;
    }
    if tm.View().curr in tm.View().ready {
      var i :| 0 <= i < |tm.View().ready| && tm.View().ready[i] == tm.curr;
      assert tm.ready.nodes[i].tid == tm.curr;
    }
  }

  /** The output half of tty_t. */
  class Output {
    const ofifo: Fifo
    const osem: Sem
    var crlf: bool
    /** The characters the console has taken. */
    ghost var shown: seq<char>

    /** A writer of the terminal is running and nobody waits for space. */
    ghost predicate Valid(tm: TaskManager)
      reads this, ofifo, ofifo.buf, osem, osem.waitList, osem.waitList.nodes, tm, tm.ready, tm.ready.nodes, tm.sleep,
            tm.sleep.nodes
    {
      && ofifo.Valid() && ofifo.buf.Length == TTY_OBUF_SIZE
      && tm.Valid() && osem.Valid(tm) && tm.curr != tm.idle && tm.CurrQueued()
    }

    ghost predicate Space(n: int)
      reads osem, osem.waitList
    {
      osem.View() == SemV(n, [])
    }

    /** tty_open */
    constructor (tm: TaskManager)
      requires tm.Valid() && tm.curr != tm.idle && tm.CurrQueued()
      ensures Valid(tm) && ofifo.Contents() == [] && Space(TTY_OBUF_SIZE) && crlf && shown == []
      ensures fresh(ofifo) && fresh(ofifo.buf) && fresh(osem) && fresh(osem.waitList)
    {
      ofifo := new Fifo(TTY_OBUF_SIZE);
      osem := new Sem(tm, TTY_OBUF_SIZE);
      crlf := true;
      shown := [];
    }

    lemma Parts(tm: TaskManager)
      requires Valid(tm)
      ensures ofifo.Valid() && ofifo.buf.Length == TTY_OBUF_SIZE == 512
      ensures tm.Valid() && osem.Valid(tm) && tm.curr != tm.idle && tm.CurrQueued()
    {
    }

    lemma Make(tm: TaskManager)
      requires ofifo.Valid() && ofifo.buf.Length == TTY_OBUF_SIZE
      requires tm.Valid() && osem.Valid(tm) && tm.curr != tm.idle && tm.CurrQueued() == true
      ensures Valid(tm)
    {
    }

    /** The objects below an output are of other kinds than the scheduler's. */
    lemma Disjoint(tm: TaskManager)
      requires Valid(tm)
      ensures this !in tm.Footprint() && ofifo !in tm.Footprint() && ofifo.buf !in tm.Footprint()
      ensures osem !in tm.Footprint()
      ensures tm.curr in tm.tasks
    {
    }

    lemma SpaceIs(n: int)
      ensures Space(n) <==> osem.View() == SemV(n, [])
    {
    }

    lemma WaitFree(s: Sched, n: int)
      ensures n > 0 ==> IpcSpec.Wait(s, SemV(n, [])) == (s, SemV(n - 1, []))
      ensures IpcSpec.Notify(s, SemV(n, [])) == (s, SemV(n + 1, []))
    {
    }

    /** One sem_wait and tty_fifo_put of tty_write: with space left neither blocks nor fails. */
    method PutChar(tm: TaskManager, c: char) returns (err: int)
      requires Valid(tm) && |ofifo.Contents()| < TTY_OBUF_SIZE && Space(TTY_OBUF_SIZE - |ofifo.Contents()|)
      modifies ofifo, ofifo.buf, osem, osem.waitList, osem.waitList.nodes, tm.tasks[tm.curr].wait, tm`curr,
               tm.Footprint()
      ensures Valid(tm) && tm.View() == old(tm.View()) && err == 0
      ensures ofifo.Contents() == old(ofifo.Contents()) + [c] && Space(TTY_OBUF_SIZE - |ofifo.Contents()|)
      ensures osem.waitList.nodes == old(osem.waitList.nodes) == [] && tm.curr == old(tm.curr)
    {
      hide *;
      Parts(tm);
      Disjoint(tm);
      QueuedView(tm);
      ghost var n := TTY_OBUF_SIZE - |ofifo.Contents()|;
      SpaceIs(n);
      WaitFree(tm.View(), n);
      NoNodes();
      osem.Wait(tm);
      NoNodes();
      QueuedView(tm);
      err := ofifo.Put(c);
      SpaceIs(n - 1);
      Make(tm);
    }

    lemma NoNodes()
      ensures osem.View().waiters == [] <==> osem.waitList.nodes == []
    {
    }

    /** console_write, as far as the output buffer is concerned: everything in it is taken, one
        notify for each character. */
    method Drain(tm: TaskManager)
      requires Valid(tm) && Space(TTY_OBUF_SIZE - |ofifo.Contents()|)
      modifies this`shown, ofifo, osem, osem.waitList, osem.waitList.nodes, tm`curr, tm.Footprint()
      ensures Valid(tm) && tm.View() == old(tm.View()) && tm.curr == old(tm.curr)
      ensures shown == old(shown) + old(ofifo.Contents()) && ofifo.Contents() == [] && Space(TTY_OBUF_SIZE)
      ensures osem.waitList.nodes == old(osem.waitList.nodes) == []
    {
      hide *;
      Parts(tm);
      ghost var v, was := tm.View(), ofifo.Contents();
      SpaceIs(TTY_OBUF_SIZE - |was|);
      NoNodes();
      while true
        invariant Valid(tm) && ofifo.Valid() && tm.View() == v && tm.curr == old(tm.curr)
        invariant shown + ofifo.Contents() == old(shown) + was
        invariant Space(TTY_OBUF_SIZE - |ofifo.Contents()|) && osem.waitList.nodes == []
        decreases |ofifo.Contents()|
      {
        Parts(tm);
        Disjoint(tm);
        QueuedView(tm);
        ghost var s := ofifo.Contents();
        SpaceIs(TTY_OBUF_SIZE - |s|);
        WaitFree(v, TTY_OBUF_SIZE - |s|);
        var err, ch := ofifo.Get();
        if err < 0 {
          Make(tm);
          break;
        }
        osem.Notify(tm);
        NoNodes();
        QueuedView(tm);
        SpaceIs(TTY_OBUF_SIZE - |ofifo.Contents()|);
        shown := shown + [ch];
        Make(tm);
      }
    }

    /** tty_write with no other writer: it never blocks or fails, and the console takes exactly the
        text with every newline expanded. */
    method Write(tm: TaskManager, text: seq<char>, size: int) returns (len: int)
      requires Valid(tm) && ofifo.Contents() == [] && Space(TTY_OBUF_SIZE) && size <= |text|
      modifies this`shown, ofifo, ofifo.buf, osem, osem.waitList, osem.waitList.nodes, tm.tasks[tm.curr].wait, tm`curr,
               tm.Footprint()
      ensures Valid(tm) && tm.View() == old(tm.View()) && ofifo.Contents() == [] && Space(TTY_OBUF_SIZE)
      ensures size < 0 ==> len == -1 && shown == old(shown)
      ensures size >= 0 ==> len == size && shown == old(shown) + Expand(text[..size], crlf)
    {
      hide *;
      if size < 0 {
        return -1;
      }
      len := 0;
      Parts(tm);
      ghost var v := tm.View();
      SpaceIs(TTY_OBUF_SIZE);
      NoNodes();
      ExpandNone(text);
      while len < size
        invariant 0 <= len <= size && Valid(tm) && ofifo.Valid() && tm.View() == v && tm.curr == old(tm.curr)
        invariant crlf == old(crlf)
        invariant ofifo.Contents() == [] && Space(TTY_OBUF_SIZE) && osem.waitList.nodes == []
        invariant shown == old(shown) + Expand(text[..len], crlf)
      {
        Parts(tm);
        Disjoint(tm);
        var c := text[len];
        if c == '\n' && crlf {
          var err := PutChar(tm, '\r');
          if err < 0 {
            break;
          }
        }
        var err := PutChar(tm, c);
        if err < 0 {
          break;
        }
        ExpandSnoc(text[..len], c, crlf);
        assert text[..len + 1] == text[..len] + [c];
        len := len + 1;
        Drain(tm);
        Parts(tm);
      }
    }

    lemma ExpandNone(text: seq<char>)
      ensures |text| >= 0 && Expand(text[..0], crlf) == []
    {
    }
  }
}
