/** The argument block of a new program: strings packed end to end, and the tables of
    pointers to them, as do_execve in fs/exec.c lays them out. */
module ExecModel {

  const PAGE_SIZE: int := 4096
  const MAX_ARG_PAGES: int := 32
  const SPACE: int := 131072

  predicate Text(s: seq<int>) {
    forall k :: 0 <= k < |s| ==> 0 < s[k] < 256
  }

  predicate Texts(v: seq<seq<int>>) {
    forall k :: 0 <= k < |v| ==> Text(v[k])
  }

  /** The strings in order, each with its NUL. */
  function Block(v: seq<seq<int>>): seq<int> {
    if v == [] then [] else v[0] + [0] + Block(v[1..])
  }

  lemma {:induction false} BlockConcat(v: seq<seq<int>>, w: seq<seq<int>>)
    ensures Block(v + w) == Block(v) + Block(w)
    decreases |v|
  {
    if v == [] {
      assert v + w == w;
    } else {
      BlockConcat(v[1..], w);
      assert (v + w)[1..] == v[1..] + w;
    }
  }

  lemma {:induction false} BlockCount(v: seq<seq<int>>)
    ensures |v| <= |Block(v)|
    decreases |v|
  {
    if v != [] {
      BlockCount(v[1..]);
    }
  }

  lemma BlockHead(v: seq<seq<int>>, i: nat)
    requires i < |v|
    ensures Block(v[i..]) == v[i] + [0] + Block(v[i + 1..])
  {
    assert v[i..][1..] == v[i + 1..];
  }

  /** Where string i of the vector starts, from the start of the block. */
  function Start(v: seq<seq<int>>, i: nat): nat
    requires i <= |v|
  {
    |Block(v[..i])|
  }

  lemma StartNext(v: seq<seq<int>>, i: nat)
    requires i < |v|
    ensures Start(v, i + 1) == Start(v, i) + |v[i]| + 1
  {
    assert v[..i + 1] == v[..i] + [v[i]];
    BlockConcat(v[..i], [v[i]]);
    assert [v[i]][1..] == [];
  }

  lemma StringAt(v: seq<seq<int>>, i: nat)
    requires i < |v|
    ensures Start(v, i) + |v[i]| + 1 <= |Block(v)|
    ensures Block(v)[Start(v, i)..Start(v, i) + |v[i]|] == v[i] && Block(v)[Start(v, i) + |v[i]|] == 0
  {
    assert v == v[..i] + v[i..];
    BlockConcat(v[..i], v[i..]);
    BlockHead(v, i);
  }

  // ---- little-endian words in user memory ----

  /** A 32-bit word, as put_fs_long stores it on the i386. */
  function Bytes4(x: int): seq<int> {
    [x % 256, x / 256 % 256, x / 65536 % 256, x / 16777216 % 256]
  }

  function Long(mem: seq<int>, a: int): int
    requires 0 <= a && a + 4 <= |mem|
  {
    mem[a] + 256 * mem[a + 1] + 65536 * mem[a + 2] + 16777216 * mem[a + 3]
  }

  function PutLong(mem: seq<int>, a: int, x: int): (r: seq<int>)
    requires 0 <= a && a + 4 <= |mem|
    ensures |r| == |mem|
  {
    mem[..a] + Bytes4(x) + mem[a + 4..]
  }

  lemma Digits(x: int)
    requires 0 <= x < 0x1_0000_0000
    ensures x % 256 + 256 * (x / 256 % 256) + 65536 * (x / 65536 % 256) + 16777216 * (x / 16777216 % 256) == x
  {
    var y, z, w := x / 256, x / 65536, x / 16777216;
    assert z == y / 256 && w == z / 256;
  }

  lemma PutLongGets(mem: seq<int>, a: int, x: int)
    requires 0 <= a && a + 4 <= |mem| && 0 <= x < 0x1_0000_0000
    ensures Long(PutLong(mem, a, x), a) == x
  {
    Digits(x);
    var b := Bytes4(x);
    var r := PutLong(mem, a, x);
    assert r[a] == b[0] && r[a + 1] == b[1] && r[a + 2] == b[2] && r[a + 3] == b[3];
  }

  lemma PutLongFrame(mem: seq<int>, a: int, x: int)
    requires 0 <= a && a + 4 <= |mem|
    ensures forall b ::
              0 <= b && b + 4 <= |mem| && (b + 4 <= a || a + 4 <= b) ==> Long(PutLong(mem, a, x), b) == Long(mem, b)
    ensures forall k :: 0 <= k < |mem| && (k < a || a + 4 <= k) ==> PutLong(mem, a, x)[k] == mem[k]
  {
  }

  // ---- the #! line ----

  const NEWLINE: int := 10
  const SPACE_CHAR: int := 32
  const TAB: int := 9
  const SLASH: int := 47

  predicate Blank(c: int) {
    c == SPACE_CHAR || c == TAB
  }

  /** Position of the first c at or after i, or the end. */
  function Find(s: seq<int>, c: int, i: nat): (k: nat)
    requires i <= |s|
    ensures i <= k <= |s| && (k < |s| ==> s[k] == c) && (forall j :: i <= j < k ==> s[j] != c)
    decreases |s| - i
  {
    if i == |s| || s[i] == c then i else Find(s, c, i + 1)
  }

  function SkipBlanks(s: seq<int>, i: nat): (k: nat)
    requires i <= |s|
    ensures i <= k <= |s| && (k < |s| ==> !Blank(s[k])) && (forall j :: i <= j < k ==> Blank(s[j]))
    decreases |s| - i
  {
    if i == |s| || !Blank(s[i]) then i else SkipBlanks(s, i + 1)
  }

  function WordEnd(s: seq<int>, i: nat): (k: nat)
    requires i <= |s|
    ensures i <= k <= |s| && (k < |s| ==> Blank(s[k])) && (forall j :: i <= j < k ==> !Blank(s[j]))
    decreases |s| - i
  {
    if i == |s| || Blank(s[i]) then i else WordEnd(s, i + 1)
  }

  /** One past the last slash of s[i..k], or i. */
  function BaseName(s: seq<int>, i: nat, k: nat): (b: nat)
    requires i <= k <= |s|
    ensures i <= b <= k && (b > i ==> s[b - 1] == SLASH) && (forall j :: b <= j < k ==> s[j] != SLASH)
    decreases k
  {
    if k == i || s[k - 1] == SLASH then k else BaseName(s, i, k - 1)
  }

  datatype Bang = NoInterpreter | Bang(interp: seq<int>, name: seq<int>, args: seq<seq<int>>)

  /** What the text behind "#!" asks for: the interpreter, its last path component, and
      the rest of the line, blanks and all, as one argument if anything follows the name. */
  function Bangs(text: seq<int>): Bang {
    var n := Find(text, NEWLINE, 0);
    if n == |text| then NoInterpreter
    else
      var line := text[..n];
      var a := SkipBlanks(line, 0);
      if a == n then NoInterpreter
      else
        var e := WordEnd(line, a);
        Bang(line[a..e], line[BaseName(line, a, e)..e], if e < n then [line[e + 1..]] else [])
  }

  /** argv[1..] as copy_strings sees it: nothing, when there is not even an argv[0]. */
  function Rest(argv: seq<seq<int>>): seq<seq<int>> {
    if argv == [] then [] else argv[1..]
  }

  /** The vector the interpreter is started with. */
  function Spliced(b: Bang, filename: seq<int>, argv: seq<seq<int>>): seq<seq<int>>
    requires b.Bang?
  {
    [b.name] + b.args + [filename] + Rest(argv)
  }

  // ---- the room for the strings ----

  /** p of do_execve: an offset into the argument pages, or `Wild` once a page past the
      end of page[] has been asked for. */
  datatype Room = At(p: nat) | Wild

  /** One call of copy_strings, with pages enough: p == 0 is left alone, and strings
      longer than what is below p wrap the unsigned p. */
  function Take(r: Room, n: nat): Room {
    if r.Wild? || r.p == 0 then r else if n > r.p then Wild else At(r.p - n)
  }

  function Left(envp: nat, rest: nat, filename: nat, args: nat, name: nat): Room {
    Take(Take(Take(Take(Take(At(SPACE - 4), envp), rest), filename), args), name)
  }

  /** What is left of the room when all strings have been copied. */
  function RoomLeft(script: bool, text: seq<int>, filename: seq<int>, argv: seq<seq<int>>, envp: seq<seq<int>>): Room
    requires script ==> Bangs(text).Bang?
  {
    if script then
      var b := Bangs(text);
      Left(|Block(envp)|, |Block(Rest(argv))|, |Block([filename])|, |Block(b.args)|, |Block([b.name])|)
    else
      Take(Take(At(SPACE - 4), |Block(envp)|), |Block(argv)|)
  }

  lemma BangTexts(text: seq<int>)
    requires Text(text) && Bangs(text).Bang?
    ensures Text(Bangs(text).name) && Texts(Bangs(text).args) && |Bangs(text).args| <= 1
  {
  }
}
