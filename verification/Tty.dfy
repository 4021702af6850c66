/** include/linux/tty.h and the input half of kernel/chr_drv/tty_io.c: character
    rings, copy_to_cooked and tty_read. */
module Tty {
  import opened LineEditor

  const SIZE: int := 1024

  function Ring(x: int): (r: int) {
    if x >= SIZE then x - SIZE else x
  }

  /** What lies in ring b between tail and head. */
  function Unread(b: seq<int>, head: nat, tail: nat): (s: seq<int>)
    requires |b| == SIZE && head < SIZE && tail < SIZE
    ensures |s| == if head >= tail then head - tail else head - tail + SIZE
  {
    seq(if head >= tail then head - tail else head - tail + SIZE, i requires 0 <= i < SIZE && tail < SIZE == |b| =>
      b[Ring(tail + i)])
  }

  /** struct tty_queue and its macros. */
  class Queue {
    var data: nat
    var head: nat
    var tail: nat
    const buf: array<int>

    ghost predicate Valid()
      reads this, buf
    {
      buf.Length == SIZE && head < SIZE && tail < SIZE
    }

    ghost function Contents(): (s: seq<int>)
      requires Valid()
      reads this, buf
    {
      Unread(buf[..], head, tail)
    }

    constructor ()
      ensures Valid() && fresh(buf) && Contents() == [] && data == 0
    {
      data, head, tail := 0, 0, 0;
      buf := new int[SIZE](_ => 0);
    }

    function Chars(): (n: nat)
      requires head < SIZE && tail < SIZE
      reads this
      ensures n == if head >= tail then head - tail else head - tail + SIZE
    {
      (head - tail) % SIZE
    }

    function Left(): (n: nat)
      requires head < SIZE && tail < SIZE
      reads this
      ensures n == SIZE - 1 - Chars()
    {
      (tail - head - 1) % SIZE
    }

    predicate Empty()
      requires head < SIZE && tail < SIZE
      reads this
      ensures Empty() <==> Chars() == 0
    {
      head == tail
    }

    function Last(): (c: int)
      requires Valid() && Chars() > 0
      reads this, buf
      ensures c == Contents()[Chars() - 1]
    {
      assert Ring(tail + (Chars() - 1)) == (head - 1) % SIZE;
      buf[(head - 1) % SIZE]
    }

    method PutCh(c: int)
      requires Valid() && Left() > 0
      modifies this`head, buf
      ensures Valid() && Contents() == old(Contents()) + [c]
    {
      ghost var was := Contents();
      ghost var n := Chars();
      buf[head] := c;
      head := (head + 1) % SIZE;
      assert Chars() == n + 1;
      forall i | 0 <= i < n
        ensures Contents()[i] == was[i]
      {
        assert Ring(tail + i) != old(head);
      }
      assert Ring(tail + n) == old(head);
      assert Contents()[n] == c;
    }

    method GetCh() returns (c: int)
      requires Valid() && Chars() > 0
      modifies this`tail
      ensures Valid() && [c] + Contents() == old(Contents())
    {
      ghost var was := Contents();
      c := buf[tail];
      tail := (tail + 1) % SIZE;
      assert Chars() == |was| - 1;
      forall i | 0 <= i < Chars()
        ensures Contents()[i] == was[i + 1]
      {
        assert Ring(tail + i) == Ring(old(tail) + (i + 1));
      }
      assert was[0] == old(buf[Ring(tail + 0)]) == c;
      assert [c] + Contents() == was;
    }

    /** DEC(head): the newest character is forgotten. */
    method Unput()
      requires Valid() && Chars() > 0
      modifies this`head
      ensures Valid() && Contents() == old(Contents())[..old(Chars()) - 1]
    {
      ghost var was := Contents();
      head := (head - 1) % SIZE;
      assert Chars() == |was| - 1;
    }
  }

  /** What `s` loses to a read of at most nr characters: in canonical mode it stops
      behind an end-of-file character. */
  function Taken(t: Termios, s: seq<int>, nr: nat): (n: nat)
    ensures n <= |s| && n <= nr
    ensures s != [] && nr > 0 ==> n > 0
  {
    if s == [] || nr == 0 then 0
    else if t.canon && s[0] == t.eof then 1
    else 1 + Taken(t, s[1..], nr - 1)
  }

  /** What the reader gets of it. */
  function Delivered(t: Termios, s: seq<int>): seq<int> {
    if t.canon && s != [] && s[|s| - 1] == t.eof then s[..|s| - 1] else s
  }

  /** A pass ends at the end of the queue, when the reader has enough, or behind the
      first end-of-file character; and not a character earlier or later. */
  lemma {:induction false} TakenExact(t: Termios, s: seq<int>, nr: nat)
    ensures var n := Taken(t, s, nr);
            && (forall k :: 0 <= k < n - 1 ==> !(t.canon && s[k] == t.eof))
            && (n == |s| || n == nr || (n > 0 && t.canon && s[n - 1] == t.eof))
    decreases nr
  {
    if s != [] && nr > 0 && !(t.canon && s[0] == t.eof) {
      TakenExact(t, s[1..], nr - 1);
      assert forall k :: 0 < k < |s| ==> s[k] == s[1..][k - 1];
    }
  }

  /** A read that stays within the completed lines leaves the line being typed as it
      is, still open to erase and kill. */
  lemma ReadLeavesLine(t: Termios, s: seq<int>, n: nat)
    requires n <= |Done(t.eof, s)|
    ensures Done(t.eof, s[n..]) == Done(t.eof, s)[n..] && Line(t.eof, s[n..]) == Line(t.eof, s)
  {
    SplitProper(t.eof, s);
    var e := Editor(Done(t.eof, s)[n..], Line(t.eof, s), false, []);
    SplitOf(t.eof, e);
    assert s[n..] == e.done + e.line;
  }

  /** tty_struct: the two input queues, `stopped`, and the signals sent by tty_intr. */
  class Terminal {
    const termios: Termios
    const readQ: Queue
    const secondary: Queue
    var stopped: bool
    var sent: seq<Mask>

    ghost predicate Wired()
      reads this, readQ, readQ.buf, secondary, secondary.buf
    {
      readQ != secondary && readQ.buf != secondary.buf && readQ.Valid() && secondary.Valid()
    }

    /** The secondary queue's counter is the number of delimiters in it. */
    ghost predicate Valid()
      reads this, readQ, readQ.buf, secondary, secondary.buf
    {
      Wired() && secondary.data == Delimiters(termios.eof, secondary.Contents())
    }

    /** The secondary queue seen as completed lines and the line being typed. */
    ghost function Text(): Editor
      requires Wired()
      reads this, readQ, readQ.buf, secondary, secondary.buf
    {
      var s := secondary.Contents();
      Editor(Done(termios.eof, s), Line(termios.eof, s), stopped, sent)
    }

    constructor (t: Termios)
      ensures Valid() && fresh(readQ) && fresh(readQ.buf) && fresh(secondary) && fresh(secondary.buf) && termios == t
      ensures readQ.Contents() == [] && Text() == Editor([], [], false, [])
    {
      termios := t;
      readQ := new Queue();
      secondary := new Queue();
      stopped, sent := false, [];
    }

    /** `c==10 || c==EOF_CHAR(tty)` on the newest character, or nothing there. */
    method AtDelimiter() returns (b: bool)
      requires Wired()
      ensures b <==> Text().line == []
    {
      b := secondary.Empty() || Delimiter(termios.eof, secondary.Last());
    }

    /** DEC on the last character of the line. */
    method DropLast()
      requires Valid() && Text().line != []
      modifies secondary`head
      ensures Valid() && Text() == old(Text()).(line := old(Text()).line[..|old(Text()).line| - 1])
      ensures secondary.Chars() == old(secondary.Chars()) - 1
    {
      hide Unread, Done, Line, Delimiters;
      LastDropped(termios.eof, secondary.Contents());
      secondary.Unput();
    }

    method EraseChar()
      requires Valid()
      modifies secondary`head
      ensures Valid() && Text() == old(Text()).(line := if old(Text()).line == [] then []
        else old(Text()).line[..|old(Text()).line| - 1])
      ensures secondary.Chars() <= old(secondary.Chars())
    {
      var none := AtDelimiter();
      if !none {
        DropLast();
      }
    }

    method KillLine()
      requires Valid()
      modifies secondary`head
      ensures Valid() && Text() == old(Text()).(line := [])
      ensures secondary.Chars() <= old(secondary.Chars())
    {
      ghost var e := Text();
      var none := AtDelimiter();
      while !none
        invariant Valid() && secondary.Chars() <= old(secondary.Chars())
        invariant Text() == e.(line := Text().line)
        invariant none <==> Text().line == []
        decreases |Text().line|
      {
        DropLast();
        none := AtDelimiter();
      }
    }

    method Append(c: int)
      requires Valid() && secondary.Left() > 0
      modifies secondary, secondary.buf
      ensures Valid() && secondary.Chars() == old(secondary.Chars()) + 1
      ensures var e := old(Text());
        Text() == if Delimiter(termios.eof, c) then e.(done := e.done + e.line + [c], line := [])
                  else e.(line := e.line + [c])
    {
      hide Unread, Done, Line, Delimiters;
      LastAdded(termios.eof, secondary.Contents(), c);
      if Delimiter(termios.eof, c) {
        secondary.data := secondary.data + 1;
      }
      secondary.PutCh(c);
    }

    /** The body of copy_to_cooked's loop. */
    method Cook()
      requires Valid() && readQ.Chars() > 0 && secondary.Left() > 0
      modifies this, readQ`tail, secondary, secondary.buf
      ensures Valid() && [old(readQ.Contents())[0]] + readQ.Contents() == old(readQ.Contents())
      ensures Text() == Type(termios, old(Text()), old(readQ.Contents())[0])
      ensures secondary.Chars() <= old(secondary.Chars()) + 1
    {
      hide Unread, Done, Line, Delimiters;
      var c := readQ.GetCh();
      if c == RETURN {
        if termios.icrnl {
          c := NEWLINE;
        } else if termios.igncr {
          return;
        }
      } else if c == NEWLINE && termios.inlcr {
        c := RETURN;
      }
      if termios.canon {
        if c == termios.kill {
          KillLine();
          return;
        }
        if c == termios.erase {
          EraseChar();
          return;
        }
        if c == termios.stop {
          stopped := true;
          return;
        }
        if c == termios.start {
          stopped := false;
          return;
        }
      }
      if termios.isig {
        if c == termios.intr {
          sent := sent + [Interrupt];
          return;
        }
        if c == termios.quit {
          sent := sent + [Quit];
          return;
        }
      }
      Append(c);
    }

    /** copy_to_cooked: the input is consumed in order, up to the point where the
        secondary queue is full. */
    method CopyToCooked()
      requires Valid()
      modifies this, readQ`tail, secondary, secondary.buf
      ensures Valid()
      ensures readQ.Chars() <= old(readQ.Chars())
      ensures var n := old(readQ.Chars()) - readQ.Chars(); var input := old(readQ.Contents());
              && readQ.Contents() == input[n..]
              && Text() == TypeAll(termios, old(Text()), input[..n])
              && (forall k :: 0 <= k < n ==>
                    |TypeAll(termios, old(Text()), input[..k]).done + TypeAll(termios, old(Text()), input[..k]).line|
                    < SIZE - 1)
      ensures readQ.Chars() == 0 || |Text().done + Text().line| == SIZE - 1
    {
      hide Unread, Type, Done, Line, Delimiters;
      ghost var e := Text();
      ghost var input := readQ.Contents();
      ghost var n := 0;
      while !readQ.Empty() && secondary.Left() > 0
        invariant Valid() && n <= |input| && readQ.Contents() == input[n..]
        invariant Text() == TypeAll(termios, e, input[..n])
        invariant forall k ::
                    0 <= k < n ==>
                      |TypeAll(termios, e, input[..k]).done + TypeAll(termios, e, input[..k]).line| < SIZE - 1
        decreases readQ.Chars()
      {
        SplitProper(termios.eof, secondary.Contents());
        Cook();
        assert input[..n + 1][..n] == input[..n];
        n := n + 1;
      }
      SplitProper(termios.eof, secondary.Contents());
    }

    /** One pass of tty_read's inner loop: nr > 0 and something is there. */
    method ReadPass(nr: nat) returns (out: seq<int>)
      requires Valid() && nr > 0 && secondary.Chars() > 0
      modifies secondary
      ensures Valid() && readQ.Contents() == old(readQ.Contents())
      ensures var s := old(secondary.Contents()); var n := Taken(termios, s, nr);
              secondary.Contents() == s[n..] && out == Delivered(termios, s[..n])
    {
      hide Unread, Delimiters;
      out := [];
      ghost var s := secondary.Contents();
      ghost var n := 0;
      var left := nr;
      while left > 0 && !secondary.Empty()
        invariant Valid() && n <= |s| && secondary.Contents() == s[n..] && left == nr - n
        invariant readQ.Contents() == old(readQ.Contents())
        invariant out == s[..n] == Delivered(termios, s[..n])
        invariant Taken(termios, s, nr) == n + Taken(termios, s[n..], left)
        decreases left
      {
        ghost var rest := secondary.Contents();
        FirstTaken(termios.eof, rest);
        var c := secondary.GetCh();
        assert secondary.Contents() == rest[1..] == s[n + 1..];
        if Delimiter(termios.eof, c) {
          secondary.data := secondary.data - 1;
        }
        n := n + 1;
        if c == termios.eof && termios.canon {
          assert s[..n][..n - 1] == out;
          return;
        }
        out := out + [c];
        left := left - 1;
      }
    }
  }
}
