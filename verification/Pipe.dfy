/** fs/pipe.c: readers and writers of one pipe, interleaved at their sleep points. */
module Pipe {

  const PAGE_SIZE: int := 4096

  /** What a task is doing with the pipe: a read that wants `want` bytes and has got
      some, a write that has put `done` bytes of `buf` away, or a call that is over. */
  datatype Call =
    | Idle
    | Reading(want: nat, got: seq<int>)
    | ReadDone(want: nat, got: seq<int>, short: bool)
    | Writing(buf: seq<int>, done: nat)
    | WriteDone(buf: seq<int>, done: nat, broken: bool)

  /** Only a short read gets less than it wants, only a broken write puts less away. */
  predicate CallOk(c: Call) {
    match c
    case Idle => true
    case Reading(want, got) => |got| <= want
    case ReadDone(want, got, short) => if short then |got| < want else |got| == want
    case Writing(buf, done) => done <= |buf|
    case WriteDone(buf, done, broken) => if broken then done < |buf| else done == |buf|
  }

  /** The bytes a call has moved. */
  function Moved(c: Call): (s: seq<int>)
    requires CallOk(c)
  {
    match c
    case Idle => []
    case Reading(_, got) => got
    case ReadDone(_, got, _) => got
    case Writing(buf, done) => buf[..done]
    case WriteDone(buf, done, _) => buf[..done]
  }

  /** What lies between tail and head. */
  function Unread(page: seq<int>, head: nat, tail: nat): (s: seq<int>)
    requires |page| == PAGE_SIZE && head < PAGE_SIZE && tail < PAGE_SIZE
    ensures |s| == Size(head, tail)
  {
    seq(Size(head, tail), i requires 0 <= i < PAGE_SIZE && tail < PAGE_SIZE == |page| => page[Ring(tail + i)])
  }

  function Ring(x: int): int {
    if x >= PAGE_SIZE then x - PAGE_SIZE else x
  }

  /** PIPE_SIZE. */
  function Size(head: nat, tail: nat): (n: nat)
    requires head < PAGE_SIZE && tail < PAGE_SIZE
    ensures n == if tail <= head then head - tail else PAGE_SIZE - tail + head
  {
    (head - tail) % PAGE_SIZE
  }

  function Min(a: int, b: int): int {
    if a < b then a else b
  }

  class Inode {
    const page: array<int>
    var head: nat
    var tail: nat
    var count: nat
    ghost var written: seq<int>
    ghost var taken: seq<int>

    ghost predicate Wired()
      reads this, page
    {
      page.Length == PAGE_SIZE && head < PAGE_SIZE && tail < PAGE_SIZE
    }

    ghost function Contents(): (s: seq<int>)
      requires Wired()
      reads this, page
    {
      Unread(page[..], head, tail)
    }

    /** First in, first out: nothing is lost, repeated or reordered. */
    ghost predicate Valid()
      reads this, page
    {
      Wired() && written == taken + Contents() && |Contents()| <= PAGE_SIZE - 1
    }

    /** As get_pipe_inode leaves it. */
    constructor ()
      ensures Valid() && fresh(page) && written == [] && Contents() == [] && count == 2
    {
      page := new int[PAGE_SIZE](_ => 0);
      head, tail, count, written, taken := 0, 0, 2, [], [];
    }

    /** One round of read_pipe's outer loop, the pipe not being empty. */
    method ReadRound(want: nat) returns (out: seq<int>)
      requires Valid() && want > 0 && head != tail
      modifies this`tail, this`taken
      ensures Valid() && taken == old(taken) + out && written == old(written)
      ensures old(Contents()) == out + Contents() && 0 < |out| <= want
      ensures |out| == want || Contents() == [] || tail == 0
    {
      hide Unread, Size;
      var size := Size(head, tail);
      var chars := PAGE_SIZE - tail;
      if chars > want {
        chars := want;
      }
      if chars > size {
        chars := size;
      }
      ghost var from := tail;
      var at := tail;
      tail := (tail + chars) % PAGE_SIZE;
      out := CopyOut(at, chars);
      taken := taken + out;
      Removed(page[..], head, from, |out|);
      assert old(Contents()) == out + Contents();
    }

    /** while (chars-->0) put_fs_byte(...) */
    method CopyOut(from: nat, n: nat) returns (out: seq<int>)
      requires from + n <= page.Length
      ensures out == page[from..from + n]
    {
      out := [];
      var at, chars := from, n;
      while chars > 0
        invariant 0 <= chars && from <= at && at + chars == from + n
        invariant out == page[from..at]
        decreases chars
      {
        out := out + [page[at]];
        at := at + 1;
        chars := chars - 1;
      }
    }

    /** while (chars-->0) ... = get_fs_byte(...) */
    method CopyIn(from: nat, buf: seq<int>, n: nat)
      requires from + n <= page.Length && n <= |buf|
      modifies page
      ensures page[..] == old(page[..from]) + buf[..n] + old(page[from + n..])
    {
      ghost var was := page[..];
      var at, k, chars := from, 0, n;
      while chars > 0
        invariant 0 <= chars && k + chars == n && at == from + k
        invariant page[..] == was[..from] + buf[..k] + was[from + k..]
        decreases chars
      {
        Stored(was, from, buf, k);
        page[at] := buf[k];
        at, k := at + 1, k + 1;
        chars := chars - 1;
      }
    }

    /** One round of write_pipe's outer loop, the pipe not being full. */
    method WriteRound(buf: seq<int>) returns (n: nat)
      requires Valid() && buf != [] && Size(head, tail) < PAGE_SIZE - 1
      modifies this`head, this`written, page
      ensures Valid() && 0 < n <= |buf| && written == old(written) + buf[..n] && taken == old(taken)
      ensures Contents() == old(Contents()) + buf[..n]
      ensures n == |buf| || |Contents()| == PAGE_SIZE - 1 || head == 0
    {
      hide Unread, Size;
      var size := PAGE_SIZE - 1 - Size(head, tail);
      var chars := PAGE_SIZE - head;
      if chars > |buf| {
        chars := |buf|;
      }
      if chars > size {
        chars := size;
      }
      ghost var was := page[..];
      ghost var from := head;
      n := chars;
      var at := head;
      head := (head + chars) % PAGE_SIZE;
      CopyIn(at, buf, n);
      written := written + buf[..n];
      ghost var b := buf[..n];
      Appended(was, from, tail, b);
      assert page[..] == was[..from] + b + was[from + |b|..];
      assert Contents() == old(Contents()) + b;
    }

    /** Closing one end: what sys_close does to i_count. */
    method CloseEnd()
      requires Valid() && count > 0
      modifies this`count
      ensures Valid() && count == old(count) - 1
    {
      count := count - 1;
    }
  }

  lemma Stored(was: seq<int>, from: nat, buf: seq<int>, k: nat)
    requires k < |buf| && from + k < |was|
    ensures (was[..from] + buf[..k] + was[from + k..])[from + k := buf[k]]
      == was[..from] + buf[..k + 1] + was[from + k + 1..]
  {
  }

  lemma Appended(was: seq<int>, from: nat, tail: nat, b: seq<int>)
    requires |was| == PAGE_SIZE && from < PAGE_SIZE && tail < PAGE_SIZE && from + |b| <= PAGE_SIZE
    requires |b| <= PAGE_SIZE - 1 - Size(from, tail)
    ensures (from + |b|) % PAGE_SIZE < PAGE_SIZE
    ensures Unread(was[..from] + b + was[from + |b|..], (from + |b|) % PAGE_SIZE, tail) == Unread(was, from, tail) + b
  {
    var r, h, n := was[..from] + b + was[from + |b|..], (from + |b|) % PAGE_SIZE, Size(from, tail);
    assert h == Ring(from + |b|);
    assert Size(h, tail) == n + |b|;
    var got, want := Unread(r, h, tail), Unread(was, from, tail) + b;
    forall i | 0 <= i < n + |b|
      ensures got[i] == want[i]
    {
      if i < n {
        assert Ring(tail + i) < from || Ring(tail + i) >= from + |b|;
      } else {
        assert Ring(tail + i) == from + (i - n);
      }
    }
    assert got == want;
  }

  lemma Removed(page: seq<int>, head: nat, tail: nat, n: nat)
    requires |page| == PAGE_SIZE && head < PAGE_SIZE && tail < PAGE_SIZE
    requires n <= Size(head, tail) && tail + n <= PAGE_SIZE
    ensures (tail + n) % PAGE_SIZE < PAGE_SIZE
    ensures Unread(page, head, tail) == page[tail..tail + n] + Unread(page, head, (tail + n) % PAGE_SIZE)
  {
    var t := (tail + n) % PAGE_SIZE;
    assert t == Ring(tail + n);
    assert Size(head, t) == Size(head, tail) - n;
    var got, want := Unread(page, head, tail), page[tail..tail + n] + Unread(page, head, t);
    forall i | 0 <= i < Size(head, tail)
      ensures got[i] == want[i]
    {
      if i < n {
        assert Ring(tail + i) == tail + i;
      } else {
        assert Ring(t + (i - n)) == Ring(tail + i);
      }
    }
    assert got == want;
  }

  // ---- tasks inside read_pipe and write_pipe ----

  /** A reader runs until its next sleep or its next round: `c` and `r` are the call
      before and after, `unread` and `count` the pipe it found. */
  ghost predicate ReadOk(c: Call, r: Call, unread: seq<int>, count: nat) {
    && c.Reading? && CallOk(c) && CallOk(r)
    && (r.Reading? || r.ReadDone?) && r.want == c.want && c.got <= r.got && r.got[|c.got|..] <= unread
    && (r.ReadDone? && !r.short <==> |c.got| == c.want)
    && (r.ReadDone? && r.short <==> |c.got| < c.want && unread == [] && count != 2)
    && (r == c <==> |c.got| < c.want && unread == [] && count == 2)
    && (r.ReadDone? ==> r.got == c.got)
  }

  ghost predicate WriteOk(c: Call, r: Call, unread: seq<int>, count: nat) {
    && c.Writing? && CallOk(c) && CallOk(r)
    && (r.Writing? || r.WriteDone?) && r.buf == c.buf && c.done <= r.done
    && r.done - c.done + |unread| <= PAGE_SIZE - 1
    && (r.WriteDone? && !r.broken <==> c.done == |c.buf|)
    && (r.WriteDone? && r.broken <==> c.done < |c.buf| && |unread| == PAGE_SIZE - 1 && count != 2)
    && (r == c <==> c.done < |c.buf| && |unread| == PAGE_SIZE - 1 && count == 2)
    && (r.WriteDone? ==> r.done == c.done)
  }

  /** What the turn moved. */
  function Segment(c: Call, r: Call): seq<int>
    requires CallOk(c) && CallOk(r)
  {
    if |Moved(c)| <= |Moved(r)| then Moved(r)[|Moved(c)|..] else []
  }

  method ReadTurn(p: Inode, c: Call) returns (r: Call)
    requires p.Valid() && c.Reading? && CallOk(c)
    modifies p`tail, p`taken
    ensures p.Valid() && p.written == old(p.written)
    ensures ReadOk(c, r, old(p.Contents()), p.count)
    ensures p.taken == old(p.taken) + Segment(c, r) && Moved(r) == Moved(c) + Segment(c, r)
  {
    r := c;
    if |c.got| == c.want {
      r := ReadDone(c.want, c.got, false);
    } else if Size(p.head, p.tail) == 0 {
      if p.count != 2 {
        r := ReadDone(c.want, c.got, true);
      }
    } else {
      var out := p.ReadRound(c.want - |c.got|);
      r := Reading(c.want, c.got + out);
      assert Segment(c, r) == out;
    }
  }

  method WriteTurn(p: Inode, c: Call) returns (r: Call)
    requires p.Valid() && c.Writing? && CallOk(c)
    modifies p`head, p`written, p.page
    ensures p.Valid() && p.taken == old(p.taken)
    ensures WriteOk(c, r, old(p.Contents()), p.count)
    ensures p.written == old(p.written) + Segment(c, r) && Moved(r) == Moved(c) + Segment(c, r)
  {
    r := c;
    if c.done == |c.buf| {
      r := WriteDone(c.buf, c.done, false);
    } else if Size(p.head, p.tail) == PAGE_SIZE - 1 {
      if p.count != 2 {
        r := WriteDone(c.buf, c.done, true);
      }
    } else {
      var rest := c.buf[c.done..];
      var n := p.WriteRound(rest);
      r := Writing(c.buf, c.done + n);
      assert Segment(c, r) == rest[..n];
    }
  }

  // ---- any number of tasks and calls ----

  datatype Turn =
    | StartRead(task: nat, want: nat)
    | StartWrite(task: nat, buf: seq<int>)
    | Reader(task: nat)
    | Writer(task: nat)
    | Close

  /** What came of a turn: a call begun, a round of a call on a pipe with the contents
      `unread` and the i_count `count`, an end closed, or nothing. */
  datatype Event =
    | Began(reading: bool, task: nat, call: Call)
    | Went(reading: bool, task: nat, before: Call, after: Call, unread: seq<int>, count: nat)
    | Closed
    | Nothing

  ghost predicate EventOk(e: Event) {
    match e
    case Began(reading, _, c) =>
      (if reading then c.Reading? && c.got == [] else c.Writing? && c.done == 0) && CallOk(c)
    case Went(reading, _, before, after, unread, count) =>
      if reading then ReadOk(before, after, unread, count) else WriteOk(before, after, unread, count)
    case _ => true
  }

  ghost predicate LogOk(log: seq<Event>) {
    forall j :: 0 <= j < |log| ==> EventOk(log[j])
  }

  /** The bytes an event reads (or writes). */
  ghost function Bytes(e: Event, reading: bool): seq<int>
    requires EventOk(e)
  {
    if e.Went? && e.reading == reading then Segment(e.before, e.after) else []
  }

  /** All bytes read (or written) in the order of the turns. */
  ghost function All(log: seq<Event>, reading: bool): seq<int>
    requires LogOk(log)
  {
    if log == [] then [] else All(log[..|log| - 1], reading) + Bytes(log[|log| - 1], reading)
  }

  ghost predicate Mine(e: Event, reading: bool, k: nat) {
    (e.Began? || e.Went?) && e.reading == reading && e.task == k
  }

  /** Those of one task's own turns. */
  ghost function By(log: seq<Event>, reading: bool, k: nat): seq<int>
    requires LogOk(log)
  {
    if log == [] then []
    else
      var e := log[|log| - 1];
      By(log[..|log| - 1], reading, k) + if Mine(e, reading, k) then Bytes(e, reading) else []
  }

  /** The present call of a task, as the log has it. */
  ghost function CallOf(log: seq<Event>, reading: bool, k: nat): Call {
    if log == [] then Idle
    else
      var e := log[|log| - 1];
      if !Mine(e, reading, k) then CallOf(log[..|log| - 1], reading, k) else if e.Began? then e.call else e.after
  }

  /** i_count, which begins at 2. */
  ghost function CountOf(log: seq<Event>): int {
    if log == [] then 2 else CountOf(log[..|log| - 1]) - if log[|log| - 1].Closed? then 1 else 0
  }

  /** The event is what the turn comes to after the log: a call is begun only by a task
      outside one, a task outside its call has no round, and a round finds the bytes
      written and not yet read and the i_count of the ends still open. */
  ghost predicate Follows(log: seq<Event>, e: Event, turn: Turn, nr: nat, nw: nat)
    requires LogOk(log) && EventOk(e)
  {
    match turn
    case StartRead(k, want) =>
      e == if k < nr && !CallOf(log, true, k).Reading? then Began(true, k, Reading(want, [])) else Nothing
    case StartWrite(k, buf) =>
      e == if k < nw && !CallOf(log, false, k).Writing? then Began(false, k, Writing(buf, 0)) else Nothing
    case Reader(k) =>
      if k < nr && CallOf(log, true, k).Reading? then Found(log, e, true, k) else e == Nothing
    case Writer(k) =>
      if k < nw && CallOf(log, false, k).Writing? then Found(log, e, false, k) else e == Nothing
    case Close => e == if CountOf(log) > 0 then Closed else Nothing
  }

  ghost predicate Found(log: seq<Event>, e: Event, reading: bool, k: nat)
    requires LogOk(log) && EventOk(e)
  {
    && e.Went? && e.reading == reading && e.task == k && e.before == CallOf(log, reading, k)
    && e.count == CountOf(log) && All(log, true) + e.unread == All(log, false)
  }

  /** The log of a run: one event for each turn. */
  ghost predicate Legal(log: seq<Event>, turns: seq<Turn>, nr: nat, nw: nat) {
    && LogOk(log) && |log| == |turns|
    && forall j :: 0 <= j < |log| ==> LogOk(log[..j]) && Follows(log[..j], log[j], turns[j], nr, nw)
  }

  lemma LogMore(log: seq<Event>, e: Event)
    requires LogOk(log) && EventOk(e)
    ensures LogOk(log + [e]) && (log + [e])[..|log|] == log
    ensures CountOf(log + [e]) == CountOf(log) - if e.Closed? then 1 else 0
    ensures forall reading :: All(log + [e], reading) == All(log, reading) + Bytes(e, reading)
  {
    assert (log + [e])[..|log|] == log;
  }

  lemma TaskMore(log: seq<Event>, e: Event, reading: bool, k: nat)
    requires LogOk(log) && EventOk(e)
    ensures LogOk(log + [e])
    ensures By(log + [e], reading, k) == By(log, reading, k) + if Mine(e, reading, k) then Bytes(e, reading) else []
    ensures CallOf(log + [e], reading, k)
      == if !Mine(e, reading, k) then CallOf(log, reading, k) else if e.Began? then e.call else e.after
  {
    assert (log + [e])[..|log|] == log;
  }

  lemma LegalMore(log: seq<Event>, turns: seq<Turn>, e: Event, turn: Turn, nr: nat, nw: nat)
    requires Legal(log, turns, nr, nw) && EventOk(e) && Follows(log, e, turn, nr, nw)
    ensures Legal(log + [e], turns + [turn], nr, nw)
  {
    hide EventOk, Follows;
    forall j | 0 <= j < |log| + 1
      ensures (log + [e])[..j] == log[..j]
    {
    }
    assert log[..|log|] == log;
  }

  /** The bytes of all calls of a task. */
  function Total(cs: seq<Call>): seq<int>
    requires forall i :: 0 <= i < |cs| ==> CallOk(cs[i])
  {
    if cs == [] then [] else Total(cs[..|cs| - 1]) + Moved(cs[|cs| - 1])
  }

  /** A task's finished calls and its present one. */
  datatype Task = Task(past: seq<Call>, now: Call)

  /** The present call is the one of the log, and all calls together have moved the bytes
      of the task's own turns. */
  ghost predicate TaskOk(t: Task, log: seq<Event>, reading: bool, k: nat) {
    && LogOk(log) && CallOk(t.now) && t.now == CallOf(log, reading, k)
    && (forall i :: 0 <= i < |t.past| ==> CallOk(t.past[i]))
    && Total(t.past) + Moved(t.now) == By(log, reading, k)
  }

  lemma Starting(t: Task, log: seq<Event>, reading: bool, k: nat, c: Call)
    requires TaskOk(t, log, reading, k) && EventOk(Began(reading, k, c))
    ensures TaskOk(Task(t.past + [t.now], c), log + [Began(reading, k, c)], reading, k)
  {
    TaskMore(log, Began(reading, k, c), reading, k);
    var past := t.past + [t.now];
    assert past[..|past| - 1] == t.past;
  }

  lemma Moving(t: Task, log: seq<Event>, e: Event)
    requires e.Went? && TaskOk(t, log, e.reading, e.task) && EventOk(e) && e.before == t.now
    requires Moved(e.after) == Moved(e.before) + Segment(e.before, e.after)
    ensures TaskOk(Task(t.past, e.after), log + [e], e.reading, e.task)
  {
    hide Total, By, All, ReadOk, WriteOk, Moved, Segment, CallOf;
    TaskMore(log, e, e.reading, e.task);
    EndsOk(e);
    var a, b, c := Total(t.past), Moved(t.now), Segment(e.before, e.after);
    assert a + (b + c) == (a + b) + c;
  }

  lemma EndsOk(e: Event)
    requires e.Went? && EventOk(e)
    ensures CallOk(e.before) && CallOk(e.after)
  {
  }

  lemma Waiting(t: Task, log: seq<Event>, reading: bool, k: nat, e: Event)
    requires TaskOk(t, log, reading, k) && EventOk(e) && !Mine(e, reading, k)
    ensures TaskOk(t, log + [e], reading, k)
  {
    TaskMore(log, e, reading, k);
  }

  lemma Others(log: seq<Event>, e: Event)
    requires LogOk(log) && EventOk(e)
    ensures forall t: Task, reading, k: nat ::
              TaskOk(t, log, reading, k) && !Mine(e, reading, k) ==> TaskOk(t, log + [e], reading, k)
  {
    hide TaskOk, EventOk, LogOk, Mine;
    forall t: Task, reading, k: nat | TaskOk(t, log, reading, k) && !Mine(e, reading, k)
      ensures TaskOk(t, log + [e], reading, k)
    {
      Waiting(t, log, reading, k, e);
    }
  }

  class Traffic {
    const pipe: Inode
    const readers: array<Task>
    const writers: array<Task>
    ghost var log: seq<Event>

    /** What was read is what the reading turns took, in order, each task has got what
        its own turns took, and the pipe holds what was written and not yet read. */
    ghost predicate Valid()
      reads this, pipe, pipe.page, readers, writers
    {
      && pipe.Valid() && readers != writers && LogOk(log)
      && pipe.taken == All(log, true) && pipe.written == All(log, false) && pipe.count == CountOf(log)
      && (forall k :: 0 <= k < readers.Length ==> TaskOk(readers[k], log, true, k))
      && (forall k :: 0 <= k < writers.Length ==> TaskOk(writers[k], log, false, k))
    }

    constructor (nr: nat, nw: nat)
      ensures Valid() && log == [] && readers.Length == nr && writers.Length == nw
      ensures fresh(pipe) && fresh(pipe.page) && fresh(readers) && fresh(writers)
      ensures pipe.Contents() == [] && pipe.count == 2
    {
      pipe := new Inode();
      readers := new Task[nr](_ => Task([], Idle));
      writers := new Task[nw](_ => Task([], Idle));
      log := [];
    }

    method StartRead(k: nat, want: nat)
      requires Valid() && k < readers.Length && !readers[k].now.Reading?
      modifies this`log, readers
      ensures Valid() && log == old(log) + [Began(true, k, Reading(want, []))]
    {
      hide Unread, Size, LogOk, TaskOk, All, CountOf;
      ghost var e := Began(true, k, Reading(want, []));
      Starting(readers[k], log, true, k, Reading(want, []));
      Others(log, e);
      LogMore(log, e);
      readers[k] := Task(readers[k].past + [readers[k].now], Reading(want, []));
      log := log + [e];
    }

    method StartWrite(k: nat, buf: seq<int>)
      requires Valid() && k < writers.Length && !writers[k].now.Writing?
      modifies this`log, writers
      ensures Valid() && log == old(log) + [Began(false, k, Writing(buf, 0))]
    {
      hide Unread, Size, LogOk, TaskOk, All, CountOf;
      ghost var e := Began(false, k, Writing(buf, 0));
      Starting(writers[k], log, false, k, Writing(buf, 0));
      Others(log, e);
      LogMore(log, e);
      writers[k] := Task(writers[k].past + [writers[k].now], Writing(buf, 0));
      log := log + [e];
    }

    method LetRead(k: nat)
      requires Valid() && k < readers.Length && readers[k].now.Reading?
      modifies this`log, pipe`tail, pipe`taken, readers
      ensures Valid() && log == old(log)
        + [Went(true, k, old(readers[k].now), readers[k].now, old(pipe.Contents()), pipe.count)]
    {
      hide Unread, Size, ReadOk, WriteOk, Segment, Moved, By, All, Total, CountOf, CallOf;
      var t := readers[k];
      var r := ReadTurn(pipe, t.now);
      ghost var e := Went(true, k, t.now, r, old(pipe.Contents()), pipe.count);
      Moving(t, log, e);
      Others(log, e);
      LogMore(log, e);
      readers[k] := Task(t.past, r);
      log := log + [e];
    }

    method LetWrite(k: nat)
      requires Valid() && k < writers.Length && writers[k].now.Writing?
      modifies this`log, pipe`head, pipe`written, pipe.page, writers
      ensures Valid() && log == old(log)
        + [Went(false, k, old(writers[k].now), writers[k].now, old(pipe.Contents()), pipe.count)]
    {
      hide Unread, Size, ReadOk, WriteOk, Segment, Moved, By, All, Total, CountOf, CallOf;
      var t := writers[k];
      var r := WriteTurn(pipe, t.now);
      ghost var e := Went(false, k, t.now, r, old(pipe.Contents()), pipe.count);
      Moving(t, log, e);
      Others(log, e);
      LogMore(log, e);
      writers[k] := Task(t.past, r);
      log := log + [e];
    }

    method CloseOne()
      requires Valid() && pipe.count > 0
      modifies this`log, pipe`count
      ensures Valid() && log == old(log) + [Closed]
    {
      hide Unread, Size, LogOk, TaskOk, All, CountOf;
      Others(log, Closed);
      LogMore(log, Closed);
      pipe.CloseEnd();
      log := log + [Closed];
    }

    method Pass()
      requires Valid()
      modifies this`log
      ensures Valid() && log == old(log) + [Nothing]
    {
      hide Unread, Size, LogOk, TaskOk, All, CountOf;
      Others(log, Nothing);
      LogMore(log, Nothing);
      log := log + [Nothing];
    }

    /** One turn, and what it comes to. */
    method Take(turn: Turn)
      requires Valid()
      modifies this`log, pipe, pipe.page, readers, writers
      ensures Valid() && |log| == |old(log)| + 1 && log[..|old(log)|] == old(log)
      ensures EventOk(log[|old(log)|])
      ensures Follows(old(log), log[|old(log)|], turn, readers.Length, writers.Length)
    {
      hide Unread, Size, LogOk, All, EventOk, ReadOk, WriteOk, CountOf, Total, Moved, By, CallOf;
      ghost var was := log;
      Calls();
      match turn {
        case StartRead(k, want) =>
          if k < readers.Length && !readers[k].now.Reading? { StartRead(k, want); } else { Pass(); }
        case StartWrite(k, buf) =>
          if k < writers.Length && !writers[k].now.Writing? { StartWrite(k, buf); } else { Pass(); }
        case Reader(k) =>
          if k < readers.Length && readers[k].now.Reading? { LetRead(k); } else { Pass(); }
        case Writer(k) =>
          if k < writers.Length && writers[k].now.Writing? { LetWrite(k); } else { Pass(); }
        case Close =>
          if pipe.count > 0 { CloseOne(); } else { Pass(); }
      }
      LastOk(was, log);
    }

    /** The tasks' calls are those of the log. */
    lemma Calls()
      requires Valid()
      ensures LogOk(log)
      ensures forall k :: 0 <= k < readers.Length ==> readers[k].now == CallOf(log, true, k)
      ensures forall k :: 0 <= k < writers.Length ==> writers[k].now == CallOf(log, false, k)
    {
      hide LogOk, All;
    }
  }

  lemma LastOk(was: seq<Event>, log: seq<Event>)
    requires LogOk(log) && |log| == |was| + 1
    ensures EventOk(log[|was|])
  {
  }

  lemma OneMore(was: seq<Event>, log: seq<Event>, turns: seq<Turn>, j: nat, nr: nat, nw: nat)
    requires j < |turns| && Legal(was, turns[..j], nr, nw)
    requires |log| == |was| + 1 && log[..|was|] == was && LogOk(was) && EventOk(log[|was|])
    requires Follows(was, log[|was|], turns[j], nr, nw)
    ensures Legal(log, turns[..j + 1], nr, nw)
  {
    assert log == was + [log[|was|]];
    assert turns[..j + 1] == turns[..j] + [turns[j]];
    hide Legal, Follows, EventOk, LogOk;
    LegalMore(was, turns[..j], log[|was|], turns[j], nr, nw);
  }

  /** For every interleaving of any number of readers and writers, each making any
      number of calls, with the ends closing at any time: the bytes read followed by
      those in the pipe are the bytes written; each task's bytes are those of its own
      turns; and turn by turn a read is short exactly when it finds the pipe empty and an
      end closed, and a write breaks exactly when it finds it full and an end closed. */
  method Run(nr: nat, nw: nat, turns: seq<Turn>) returns (t: Traffic)
    ensures fresh(t) && t.readers.Length == nr && t.writers.Length == nw && t.pipe.Wired()
    ensures Legal(t.log, turns, nr, nw) && t.pipe.count == CountOf(t.log)
    ensures All(t.log, true) + t.pipe.Contents() == All(t.log, false) && |t.pipe.Contents()| <= PAGE_SIZE - 1
    ensures forall k :: 0 <= k < nr ==> TaskOk(t.readers[k], t.log, true, k)
    ensures forall k :: 0 <= k < nw ==> TaskOk(t.writers[k], t.log, false, k)
  {
    t := new Traffic(nr, nw);
    for j := 0 to |turns|
      invariant fresh(t) && fresh(t.pipe) && fresh(t.pipe.page) && fresh(t.readers) && fresh(t.writers)
      invariant t.Valid() && t.readers.Length == nr && t.writers.Length == nw
      invariant Legal(t.log, turns[..j], nr, nw)
    {
      hide *;
      ghost var was := t.log;
      t.Take(turns[j]);
      OneMore(was, t.log, turns, j, nr, nw);
    }
    assert turns[..|turns|] == turns;
  }

  // ---- copying after the pointer has moved ----

  /** A round is one step here. In the code the bytes are copied after the pointer has
      been moved, and a copy can sleep on a page fault of the user's buffer: a reader
      let in between finds the stale bytes of the page, so that the write shows rightly
      exactly when those are the bytes it is about to copy. */
  lemma HeadBeforeBytes(page: seq<int>, head: nat, tail: nat, b: seq<int>)
    requires |page| == PAGE_SIZE && head < PAGE_SIZE && tail < PAGE_SIZE && head + |b| <= PAGE_SIZE
    requires |b| <= PAGE_SIZE - 1 - Size(head, tail)
    ensures (head + |b|) % PAGE_SIZE < PAGE_SIZE
    ensures Unread(page, (head + |b|) % PAGE_SIZE, tail) == Unread(page, head, tail) + b
      <==> page[head..head + |b|] == b
  {
    var stale := page[head..head + |b|];
    Appended(page, head, tail, stale);
    assert page[..head] + stale + page[head + |b|..] == page;
    var u := Unread(page, head, tail);
    if u + stale == u + b {
      assert (u + stale)[|u|..] == (u + b)[|u|..];
    }
  }

  /** The reading side: tail has moved past n bytes, of which none has been copied yet
      when a writer is let in and puts b into the page at head. The reader then copies
      the right bytes exactly when none of them was overwritten with another. */
  lemma TailBeforeBytes(page: seq<int>, head: nat, tail: nat, n: nat, b: seq<int>)
    requires |page| == PAGE_SIZE && head < PAGE_SIZE && tail + n <= PAGE_SIZE && tail < PAGE_SIZE && 0 < n
    requires n <= Size(head, tail) && head + |b| <= PAGE_SIZE
    requires |b| <= PAGE_SIZE - 1 - Size(head, (tail + n) % PAGE_SIZE)
    ensures (page[..head] + b + page[head + |b|..])[tail..tail + n] == page[tail..tail + n]
      <==> forall i :: 0 <= i < |b| && tail <= head + i < tail + n ==> b[i] == page[head + i]
  {
    var r := page[..head] + b + page[head + |b|..];
    assert forall i :: 0 <= i < |b| ==> r[head + i] == b[i];
    assert forall a :: 0 <= a < PAGE_SIZE && !(head <= a < head + |b|) ==> r[a] == page[a];
    if forall i :: 0 <= i < |b| && tail <= head + i < tail + n ==> b[i] == page[head + i] {
      forall a | tail <= a < tail + n
        ensures r[a] == page[a]
      {
        assert head <= a < head + |b| ==> b[a - head] == page[a];
      }
      assert r[tail..tail + n] == page[tail..tail + n];
    } else {
      var i :| 0 <= i < |b| && tail <= head + i < tail + n && b[i] != page[head + i];
      assert r[tail..tail + n][head + i - tail] != page[tail..tail + n][head + i - tail];
    }
  }

  /** It happens: a writer waiting on a full pipe puts its second byte where the reader's
      first one was. */
  lemma StaleRead(page: seq<int>, tail: nat, n: nat, x: int, y: int)
    requires |page| == PAGE_SIZE && 1 <= tail && 2 <= n && tail + n < PAGE_SIZE && page[tail] != y
    ensures Size(tail - 1, tail) == PAGE_SIZE - 1 && 2 <= PAGE_SIZE - 1 - Size(tail - 1, tail + n)
    ensures (page[..tail - 1] + [x, y] + page[tail + 1..])[tail..tail + n] != page[tail..tail + n]
  {
    TailBeforeBytes(page, tail - 1, tail, n, [x, y]);
    assert [x, y][1] != page[tail - 1 + 1];
  }

  // ---- one call on either side ----

  /** The bytes of a read go no further than what was to be written. */
  ghost predicate ReaderOk(r: Call, want: nat, buf: seq<int>) {
    CallOk(r) &&
    match r
    case Reading(n, got) => n == want && got <= buf
    case ReadDone(n, got, short) => n == want && got <= buf && (short ==> got == buf)
    case _ => false
  }

  ghost predicate WriterOk(w: Call, buf: seq<int>) {
    CallOk(w) &&
    match w
    case Writing(b, _) => b == buf
    case WriteDone(b, _, broken) => b == buf && !broken
    case _ => false
  }

  /** One call on either side, begun first, and no end closed before the writer is done. */
  ghost predicate Conversation(log: seq<Event>, turns: seq<Turn>, want: nat, buf: seq<int>) {
    && Legal(log, turns, 1, 1)
    && |turns| >= 2 && turns[0] == StartRead(0, want) && turns[1] == StartWrite(0, buf)
    && (forall j :: 2 <= j < |turns| ==> Plain(log[..j], turns[j]))
  }

  ghost predicate Plain(log: seq<Event>, turn: Turn) {
    turn == Reader(0) || turn == Writer(0) || (turn == Close && CallOf(log, false, 0).WriteDone?)
  }

  ghost predicate Linked(log: seq<Event>, want: nat, buf: seq<int>) {
    && LogOk(log)
    && ReaderOk(CallOf(log, true, 0), want, buf) && WriterOk(CallOf(log, false, 0), buf)
    && All(log, true) == Moved(CallOf(log, true, 0)) && All(log, false) == Moved(CallOf(log, false, 0))
    && (CountOf(log) == 2 || CallOf(log, false, 0).WriteDone?)
  }

  lemma LinkedNext(log: seq<Event>, e: Event, turn: Turn, want: nat, buf: seq<int>)
    requires Linked(log, want, buf) && EventOk(e) && Follows(log, e, turn, 1, 1) && Plain(log, turn)
    ensures Linked(log + [e], want, buf)
  {
    hide LogOk;
    LogMore(log, e);
    TaskMore(log, e, true, 0);
    TaskMore(log, e, false, 0);
    hide By, All, CallOf, CountOf;
    if e.Went? && e.reading {
      RoundLinked(e, All(log, true), All(log, false), want, buf);
    } else if e.Went? {
      assert Moved(e.after) == Moved(e.before) + Segment(e.before, e.after);
    }
  }

  lemma RoundLinked(e: Event, taken: seq<int>, written: seq<int>, want: nat, buf: seq<int>)
    requires e.Went? && e.reading && EventOk(e) && ReaderOk(e.before, want, buf) && taken == Moved(e.before)
    requires written == taken + e.unread && written <= buf && (e.count != 2 ==> written == buf)
    ensures ReaderOk(e.after, want, buf) && taken + Segment(e.before, e.after) == Moved(e.after)
  {
    var seg := Segment(e.before, e.after);
    assert e.after.got == e.before.got + e.after.got[|e.before.got|..];
    assert seg <= e.unread;
    assert written == (taken + seg) + e.unread[|seg|..];
  }

  lemma {:induction false} Linking(log: seq<Event>, turns: seq<Turn>, want: nat, buf: seq<int>, n: nat)
    requires Conversation(log, turns, want, buf) && 2 <= n <= |log|
    ensures Linked(log[..n], want, buf)
  {
    hide Linked, Follows, EventOk, Plain, LogOk;
    if n == 2 {
      Opening(log, turns, want, buf);
    } else {
      Linking(log, turns, want, buf, n - 1);
      EventsOk(log);
      assert log[..n] == log[..n - 1] + [log[n - 1]];
      assert Plain(log[..n - 1], turns[n - 1]);
      LinkedNext(log[..n - 1], log[n - 1], turns[n - 1], want, buf);
    }
  }

  lemma EventsOk(log: seq<Event>)
    requires LogOk(log)
    ensures forall j :: 0 <= j < |log| ==> EventOk(log[j])
  {
  }

  lemma Opening(log: seq<Event>, turns: seq<Turn>, want: nat, buf: seq<int>)
    requires Conversation(log, turns, want, buf)
    ensures Linked(log[..2], want, buf)
  {
    var a, b := Began(true, 0, Reading(want, [])), Began(false, 0, Writing(buf, 0));
    assert Follows(log[..0], log[0], turns[0], 1, 1) && Follows(log[..1], log[1], turns[1], 1, 1);
    assert log[..0] == [];
    assert log[..1] == [] + [a];
    TaskMore([], a, true, 0);
    TaskMore([], a, false, 0);
    LogMore([], a);
    assert log[..2] == [a] + [b];
    TaskMore([a], b, true, 0);
    TaskMore([a], b, false, 0);
    LogMore([a], b);
  }

  /** For every interleaving of one reader and one writer, the pipe being closed only when
      the writer has finished: the reader has a prefix of what was to be written, the bytes
      in between are those accepted and not yet read, and a finished read has got all it
      wanted or else everything. */
  lemma Converse(log: seq<Event>, turns: seq<Turn>, want: nat, buf: seq<int>)
    requires Conversation(log, turns, want, buf)
    ensures LogOk(log) && All(log, true) <= buf && All(log, false) <= buf
    ensures var r := CallOf(log, true, 0);
      && CallOk(r) && Moved(r) == All(log, true)
      && (r.ReadDone? ==> Moved(r) == buf[..Min(want, |buf|)])
  {
    assert log[..|log|] == log && 2 <= |log|;
    hide Conversation;
    Linking(log, turns, want, buf, |log|);
    LinkedMeans(log, want, buf);
  }

  lemma LinkedMeans(log: seq<Event>, want: nat, buf: seq<int>)
    requires Linked(log, want, buf)
    ensures LogOk(log) && All(log, true) <= buf && All(log, false) <= buf
    ensures var r := CallOf(log, true, 0);
      && CallOk(r) && Moved(r) == All(log, true)
      && (r.ReadDone? ==> Moved(r) == buf[..Min(want, |buf|)])
  {
    hide All, CallOf, CountOf, LogOk;
  }
}
