/** Canonical input processing as an editor over completed lines and the line being
    typed; what copy_to_cooked in kernel/chr_drv/tty_io.c is meant to do. */
module LineEditor {

  const NEWLINE: int := 10
  const RETURN: int := 13

  /** The flags and control characters read by copy_to_cooked. Input characters are
      signed, control characters unsigned, so one above 127 never matches. */
  datatype Termios = Termios(icrnl: bool, igncr: bool, inlcr: bool, canon: bool, isig: bool,
                             intr: int, quit: int, erase: int, kill: int, eof: int, start: int, stop: int)

  datatype Mask = Interrupt | Quit

  /** `done` ends in a delimiter or is empty, `line` holds none. */
  datatype Editor = Editor(done: seq<int>, line: seq<int>, stopped: bool, sent: seq<Mask>)

  predicate Delimiter(eof: int, c: int) {
    c == NEWLINE || c == eof
  }

  function Delimiters(eof: int, s: seq<int>): nat {
    if s == [] then 0 else Delimiters(eof, s[..|s| - 1]) + (if Delimiter(eof, s[|s| - 1]) then 1 else 0)
  }

  /** Everything up to and including the last delimiter. */
  function Done(eof: int, s: seq<int>): (d: seq<int>)
    ensures d <= s
  {
    if s == [] || Delimiter(eof, s[|s| - 1]) then s else Done(eof, s[..|s| - 1])
  }

  function Line(eof: int, s: seq<int>): seq<int> {
    s[|Done(eof, s)|..]
  }

  function Translate(t: Termios, c: int): int {
    if c == RETURN && t.icrnl then NEWLINE else if c == NEWLINE && t.inlcr then RETURN else c
  }

  /** What one incoming character does. */
  function Type(t: Termios, e: Editor, raw: int): Editor {
    var c := Translate(t, raw);
    if raw == RETURN && !t.icrnl && t.igncr then e
    else if t.canon && c == t.kill then e.(line := [])
    else if t.canon && c == t.erase then e.(line := if e.line == [] then [] else e.line[..|e.line| - 1])
    else if t.canon && c == t.stop then e.(stopped := true)
    else if t.canon && c == t.start then e.(stopped := false)
    else if t.isig && c == t.intr then e.(sent := e.sent + [Interrupt])
    else if t.isig && c == t.quit then e.(sent := e.sent + [Quit])
    else if Delimiter(t.eof, c) then e.(done := e.done + e.line + [c], line := [])
    else e.(line := e.line + [c])
  }

  function TypeAll(t: Termios, e: Editor, input: seq<int>): Editor {
    if input == [] then e else Type(t, TypeAll(t, e, input[..|input| - 1]), input[|input| - 1])
  }

  ghost predicate Proper(eof: int, e: Editor) {
    && (e.done == [] || Delimiter(eof, e.done[|e.done| - 1]))
    && (forall k :: 0 <= k < |e.line| ==> !Delimiter(eof, e.line[k]))
  }

  lemma {:induction false} SplitProper(eof: int, s: seq<int>)
    ensures s == Done(eof, s) + Line(eof, s)
    ensures Proper(eof, Editor(Done(eof, s), Line(eof, s), false, []))
  {
    if s != [] && !Delimiter(eof, s[|s| - 1]) {
      SplitProper(eof, s[..|s| - 1]);
      assert Line(eof, s) == Line(eof, s[..|s| - 1]) + [s[|s| - 1]];
    }
  }

  /** The last delimiter of d + l is d's, if l has none. */
  lemma {:induction false} DoneOf(eof: int, d: seq<int>, l: seq<int>)
    requires d == [] || Delimiter(eof, d[|d| - 1])
    requires forall k :: 0 <= k < |l| ==> !Delimiter(eof, l[k])
    ensures Done(eof, d + l) == d
    decreases |l|
  {
    if l == [] {
      assert d + l == d;
    } else {
      var s, n := d + l, |l| - 1;
      DoneOf(eof, d, l[..n]);
      assert s[..|s| - 1] == d + l[..n];
      assert !Delimiter(eof, s[|s| - 1]) by { assert s[|s| - 1] == l[n]; }
    }
  }

  /** The split is the only one. */
  lemma SplitOf(eof: int, e: Editor)
    requires Proper(eof, e)
    ensures Done(eof, e.done + e.line) == e.done && Line(eof, e.done + e.line) == e.line
  {
    hide Done;
    DoneOf(eof, e.done, e.line);
    assert (e.done + e.line)[|e.done|..] == e.line;
  }

  lemma {:induction false} DelimitersConcat(eof: int, a: seq<int>, b: seq<int>)
    ensures Delimiters(eof, a + b) == Delimiters(eof, a) + Delimiters(eof, b)
    decreases |b|
  {
    if b == [] {
      assert a + b == a;
    } else {
      var n := |b| - 1;
      assert (a + b)[..|a + b| - 1] == a + b[..n];
      DelimitersConcat(eof, a, b[..n]);
    }
  }

  lemma {:induction false} NoDelimiters(eof: int, s: seq<int>)
    requires forall k :: 0 <= k < |s| ==> !Delimiter(eof, s[k])
    ensures Delimiters(eof, s) == 0
    decreases |s|
  {
    if s != [] {
      NoDelimiters(eof, s[..|s| - 1]);
    }
  }

  lemma TypeKeeps(t: Termios, e: Editor, raw: int)
    requires Proper(t.eof, e)
    ensures Proper(t.eof, Type(t, e, raw))
    ensures e.done <= Type(t, e, raw).done
  {
  }

  /** Completed lines are never touched again: not by erase, not by kill. */
  lemma {:induction false} TypeAllKeeps(t: Termios, e: Editor, input: seq<int>)
    requires Proper(t.eof, e)
    ensures Proper(t.eof, TypeAll(t, e, input))
    ensures e.done <= TypeAll(t, e, input).done
    decreases |input|
  {
    hide Type, Proper;
    if input != [] {
      TypeAllKeeps(t, e, input[..|input| - 1]);
      TypeKeeps(t, TypeAll(t, e, input[..|input| - 1]), input[|input| - 1]);
    }
  }

  lemma {:induction false} TypeAllConcat(t: Termios, e: Editor, a: seq<int>, b: seq<int>)
    ensures TypeAll(t, e, a + b) == TypeAll(t, TypeAll(t, e, a), b)
    decreases |b|
  {
    if b == [] {
      assert a + b == a;
    } else {
      assert (a + b)[..|a + b| - 1] == a + b[..|b| - 1];
      TypeAllConcat(t, e, a, b[..|b| - 1]);
    }
  }

  /** A character that only ever becomes one more character of the line. */
  predicate Plain(t: Termios, raw: int) {
    var c := Translate(t, raw);
    && !(raw == RETURN && !t.icrnl && t.igncr) && !Delimiter(t.eof, c)
    && (t.canon ==> c != t.kill && c != t.erase && c != t.stop && c != t.start)
    && (t.isig ==> c != t.intr && c != t.quit)
  }

  lemma {:induction false} PlainInput(t: Termios, e: Editor, input: seq<int>)
    requires forall k :: 0 <= k < |input| ==> Plain(t, input[k])
    ensures var r := TypeAll(t, e, input); r == e.(line := r.line) && |r.line| == |e.line| + |input| && e.line <= r.line
    ensures var r := TypeAll(t, e, input); forall k ::
      0 <= k < |input| ==> r.line[|e.line| + k] == Translate(t, input[k])
    decreases |input|
  {
    if input != [] {
      PlainInput(t, e, input[..|input| - 1]);
    }
  }

  predicate Erases(t: Termios, raw: int) {
    t.canon && t.erase != t.kill && Translate(t, raw) == t.erase && (raw == RETURN ==> t.icrnl || !t.igncr)
  }

  /** Erases shorten the line from its end, one character each. */
  lemma {:induction false} EraseTail(t: Termios, e: Editor, erases: seq<int>)
    requires |erases| <= |e.line|
    requires forall k :: 0 <= k < |erases| ==> Erases(t, erases[k])
    ensures TypeAll(t, e, erases) == e.(line := e.line[..|e.line| - |erases|])
    decreases |erases|
  {
    if erases == [] {
      assert e.line[..|e.line|] == e.line;
    } else {
      EraseTail(t, e, erases[..|erases| - 1]);
    }
  }

  /** Text followed by as many erases leaves no trace. */
  lemma EraseUndoes(t: Termios, e: Editor, input: seq<int>, erases: seq<int>)
    requires |erases| == |input|
    requires forall k :: 0 <= k < |input| ==> Plain(t, input[k])
    requires forall k :: 0 <= k < |erases| ==> Erases(t, erases[k])
    ensures TypeAll(t, e, input + erases) == e
  {
    hide Plain, Erases, TypeAll;
    TypeAllConcat(t, e, input, erases);
    PlainInput(t, e, input);
    EraseTail(t, TypeAll(t, e, input), erases);
  }

  /** Whatever was typed since the last delimiter, kill takes it all back. */
  lemma KillForgets(t: Termios, e: Editor, input: seq<int>, raw: int)
    requires t.canon && Translate(t, raw) == t.kill && (raw == RETURN ==> t.icrnl || !t.igncr)
    requires forall k :: 0 <= k < |input| ==> Plain(t, input[k])
    ensures TypeAll(t, e, input + [raw]) == e.(line := [])
  {
    PlainInput(t, e, input);
    assert (input + [raw])[..|input|] == input;
  }

  // ---- one character more or less at the end of the queue ----

  lemma LastDropped(eof: int, s: seq<int>)
    requires Line(eof, s) != []
    ensures s != []
    ensures var r := s[..|s| - 1]; Done(eof, r) == Done(eof, s) && Line(eof, r) == Line(eof, s)[..|Line(eof, s)| - 1]
    ensures Delimiters(eof, s[..|s| - 1]) == Delimiters(eof, s)
  {
    SplitProper(eof, s);
    assert s[|s| - 1] == Line(eof, s)[|Line(eof, s)| - 1];
  }

  lemma LastAdded(eof: int, s: seq<int>, c: int)
    ensures Done(eof, s + [c]) == if Delimiter(eof, c) then Done(eof, s) + Line(eof, s) + [c] else Done(eof, s)
    ensures Line(eof, s + [c]) == if Delimiter(eof, c) then [] else Line(eof, s) + [c]
    ensures Delimiters(eof, s + [c]) == Delimiters(eof, s) + if Delimiter(eof, c) then 1 else 0
  {
    SplitProper(eof, s);
    assert (s + [c])[..|s|] == s;
  }

  lemma FirstTaken(eof: int, s: seq<int>)
    requires s != []
    ensures Delimiters(eof, s) == (if Delimiter(eof, s[0]) then 1 else 0) + Delimiters(eof, s[1..])
  {
    DelimitersConcat(eof, s[..1], s[1..]);
    assert s[..1] + s[1..] == s && s[..1][..0] == [];
  }
}
