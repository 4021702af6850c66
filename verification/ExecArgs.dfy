/** copy_strings, create_tables and the #! splice of do_execve in fs/exec.c. */
module ExecArgs {
  import opened Counting
  import opened ExecModel

  const DATA_LIMIT: int := 0x4000000
  const ULONG_MAX: nat := 0xffff_ffff

  /** The argument pages seen as one stretch of bytes; a page not there is all zero. */
  function Flat(page: seq<seq<int>>): (f: seq<int>)
    requires |page| == MAX_ARG_PAGES && (forall i :: 0 <= i < MAX_ARG_PAGES ==> page[i] == [] || |page[i]| == PAGE_SIZE)
    ensures |f| == SPACE
  {
    seq(SPACE, a requires 0 <= a < SPACE => ByteAt(page, a))
  }

  function ByteAt(page: seq<seq<int>>, a: int): int
    requires 0 <= a < SPACE && |page| == MAX_ARG_PAGES
      && (forall i :: 0 <= i < MAX_ARG_PAGES ==> page[i] == [] || |page[i]| == PAGE_SIZE)
  {
    var s := page[a / PAGE_SIZE];
    if s == [] then 0 else s[a % PAGE_SIZE]
  }

  function Missing(page: seq<seq<int>>): set<int> {
    set i: int | 0 <= i < |page| && page[i] == []
  }

  function Zeros(n: nat): seq<int> {
    seq(n, _ => 0)
  }

  /** page[] of do_execve, and how many free pages are left. */
  class ArgPages {
    const page: array<seq<int>>
    var free: nat

    ghost predicate Valid()
      reads this, page
    {
      page.Length == MAX_ARG_PAGES && (forall i :: 0 <= i < MAX_ARG_PAGES ==> page[i] == [] || |page[i]| == PAGE_SIZE)
    }

    ghost function Bytes(): (f: seq<int>)
      requires Valid()
      reads this, page
      ensures |f| == SPACE
    {
      Flat(page[..])
    }

    /** There is a free page for every one that may still be asked for. */
    ghost predicate Enough()
      requires Valid()
      reads this, page
    {
      free >= |Missing(page[..])|
    }

    constructor (pages: nat)
      ensures Valid() && fresh(page) && Bytes() == Zeros(SPACE) && free == pages
      ensures pages >= MAX_ARG_PAGES ==> Enough()
    {
      page := new seq<int>[MAX_ARG_PAGES](_ => []);
      free := pages;
      new;
      assert Flat(page[..]) == Zeros(SPACE);
      BoundedSet(Missing(page[..]), 0, MAX_ARG_PAGES);
    }

    /** page[k] or a fresh page of zeros, if one is to be had. */
    method Touch(k: int) returns (ok: bool)
      requires Valid() && 0 <= k < MAX_ARG_PAGES
      modifies this, page
      ensures Valid() && Bytes() == old(Bytes())
      ensures ok ==> |page[k]| == PAGE_SIZE
      ensures !ok ==> old(free) == 0 && page[k] == []
      ensures old(Enough()) ==> Enough() && ok
    {
      ghost var was := page[..];
      if page[k] != [] {
        return true;
      }
      if free == 0 {
        assert k in Missing(was);
        return false;
      }
      free := free - 1;
      page[k] := Zeros(PAGE_SIZE);
      assert k in Missing(was) && Missing(page[..]) == Missing(was) - {k};
      forall a | 0 <= a < SPACE
        ensures ByteAt(page[..], a) == ByteAt(was, a)
      {
      }
      return true;
    }

    method Store(k: int, offset: int, c: int)
      requires Valid() && 0 <= k < MAX_ARG_PAGES && 0 <= offset < PAGE_SIZE && page[k] != []
      modifies page
      ensures Valid() && page[k] != [] && Bytes() == old(Bytes())[k * PAGE_SIZE + offset := c]
      ensures old(Enough()) ==> Enough()
    {
      ghost var was := page[..];
      page[k] := page[k][offset := c];
      assert Missing(page[..]) == Missing(was);
      forall a | 0 <= a < SPACE
        ensures ByteAt(page[..], a) == if a == k * PAGE_SIZE + offset then c else ByteAt(was, a)
      {
        assert a == a / PAGE_SIZE * PAGE_SIZE + a % PAGE_SIZE;
      }
    }

    /** Packs the strings downwards from p0, last one first; the result is the new p,
        or 0 when p0 was 0 or memory ran out. The test for too long strings (line 128)
        compares an unsigned number with 0 and never fires: p wraps, and page[] is asked
        for an element past its end, exactly when the strings do not fit (`wild`). */
    method CopyStrings(argv: seq<seq<int>>, p0: nat) returns (p: nat, wild: bool)
      requires Valid() && Texts(argv) && p0 <= SPACE
      modifies this, page
      ensures Valid()
      ensures p0 == 0 ==> p == 0 && !wild && Bytes() == old(Bytes())
      ensures wild ==> 0 < p0 < |Block(argv)|
      ensures !wild && p0 > 0 && p != 0 ==> p == p0 - |Block(argv)|
      ensures !wild && p0 > 0 && p != 0 ==> Bytes() == old(Bytes())[..p] + Block(argv) + old(Bytes())[p0..]
      ensures old(Enough()) ==> (wild <==> 0 < p0 < |Block(argv)|)
      ensures old(Enough()) && !wild ==> Enough() && (p0 > 0 ==> p == p0 - |Block(argv)|)
    {
      wild := false;
      if p0 == 0 {
        return 0, false;
      }
      ghost var was := Bytes();
      p := p0;
      var argc := |argv|;
      var pag, offset := 0, 0;
      assert argv[..argc] == argv && argv[argc..] == [] && was[..p0] + [] + was[p0..] == was;
      while argc > 0
        invariant Valid() && 0 <= argc <= |argv|
        invariant p == p0 - |Block(argv[argc..])| && Bytes() == was[..p] + Block(argv[argc..]) + was[p0..]
        invariant |Block(argv)| == |Block(argv[argc..])| + |Block(argv[..argc])|
        invariant At(pag, offset, p) && (old(Enough()) ==> Enough())
      {
        argc := argc - 1;
        Shrink(argv, argc);
        var ok;
        p, pag, offset, ok, wild := CopyString(argv[argc], p, pag, offset, was, Block(argv[argc + 1..]), p0);
        if wild {
          return;
        }
        if !ok {
          return 0, false;
        }
      }
      assert argv[0..] == argv;
    }

    /** Between bytes, pag + offset points at the byte last written, which is at p. */
    ghost predicate At(pag: int, offset: int, p: int)
      requires Valid()
      reads this, page
    {
      0 <= offset < PAGE_SIZE
      && (offset > 0 ==> 0 <= pag < MAX_ARG_PAGES && page[pag] != [] && pag * PAGE_SIZE + offset == p)
    }

    /** One string, from its NUL backwards. */
    method CopyString(text: seq<int>, p0: nat, pag0: int, offset0: int, ghost was: seq<int>, ghost tail: seq<int>,
        ghost end: nat)
      returns (p: nat, pag: int, offset: int, ok: bool, wild: bool)
      requires Valid() && Text(text) && p0 <= end <= SPACE && p0 == end - |tail| && |was| == SPACE
      requires At(pag0, offset0, p0) && Bytes() == was[..p0] + tail + was[end..]
      modifies this, page
      ensures Valid()
      ensures wild ==> !ok && p0 < |text| + 1 && p >= SPACE
      ensures old(Enough()) ==> Enough() && (ok <==> p0 >= |text| + 1) && (wild <==> !ok)
      ensures ok ==> p == p0 - (|text| + 1) && At(pag, offset, p)
      ensures ok ==> Bytes() == was[..p] + (text + [0] + tail) + was[end..]
    {
      hide Flat;
      p, pag, offset, ok, wild := p0, pag0, offset0, true, false;
      var s := text + [0];
      var len, tmp := 1, 1;
      while s[tmp - 1] != 0
        invariant 1 <= len == tmp <= |s|
        invariant forall k :: 0 <= k < tmp - 1 ==> s[k] != 0
        decreases |s| - tmp
      {
        len, tmp := len + 1, tmp + 1;
      }
      assert len == |s|;
      assert s[len..] + tail == tail;
      while len > 0
        invariant Valid() && 0 <= len == tmp <= |s| && p == p0 - (|s| - len) && At(pag, offset, p)
        invariant ok && !wild && (old(Enough()) ==> Enough())
        invariant Bytes() == was[..p] + (s[len..] + tail) + was[end..]
        decreases len
      {
        p, tmp, len := if p == 0 then ULONG_MAX else p - 1, tmp - 1, len - 1;
        offset := offset - 1;
        if offset < 0 {
          offset := p % PAGE_SIZE;
          pag := p / PAGE_SIZE;
          if pag >= MAX_ARG_PAGES {
            ok, wild := false, true;
            return;
          }
          ok := Touch(pag);
          if !ok {
            return;
          }
        }
        Store(pag, offset, s[tmp]);
        PutBefore(was, p, s, len, tail, end);
      }
      assert s[0..] == text + [0];
    }
  }

  lemma PutBefore(was: seq<int>, p: nat, s: seq<int>, len: nat, tail: seq<int>, end: nat)
    requires len < |s| && p + 1 + |s[len + 1..] + tail| == end <= |was|
    ensures (was[..p + 1] + (s[len + 1..] + tail) + was[end..])[p := s[len]]
      == was[..p] + (s[len..] + tail) + was[end..]
  {
    assert s[len..] == [s[len]] + s[len + 1..];
  }

  lemma Shrink(argv: seq<seq<int>>, i: nat)
    requires i < |argv|
    ensures Block(argv[i..]) == argv[i] + [0] + Block(argv[i + 1..])
    ensures |Block(argv[..i + 1])| == |Block(argv[..i])| + |argv[i]| + 1
  {
    BlockHead(argv, i);
    StartNext(argv, i);
  }

  // ---- create_tables ----

  /** A table of pointers: one per string from `from` on, ended by 0. */
  ghost predicate Table(mem: seq<int>, table: int, base: int, v: seq<seq<int>>, from: nat, n: nat)
    requires 0 <= table && table + 4 * n + 4 <= |mem| && from + n <= |v|
  {
    && (forall j :: 0 <= j < n ==> Long(mem, table + 4 * j) == base + Start(v, from + j))
    && Long(mem, table + 4 * n) == 0
  }

  method PutFsLong(mem: array<int>, a: int, x: int)
    requires 0 <= a && a + 4 <= mem.Length
    modifies mem
    ensures mem[..] == PutLong(old(mem[..]), a, x)
  {
    mem[a] := x % 256;
    mem[a + 1] := x / 256 % 256;
    mem[a + 2] := x / 65536 % 256;
    mem[a + 3] := x / 16777216 % 256;
  }

  /** One of create_tables' two loops: it finds the strings by their NULs. */
  method FillTable(mem: array<int>, table: int, p0: int, n: nat, ghost base: int, ghost v: seq<seq<int>>,
      ghost from: nat) returns (p: int)
    requires 0 <= table && table + 4 * n + 4 <= base && base + |Block(v)| <= mem.Length <= 0x1_0000_0000
    requires from + n <= |v| && Texts(v) && p0 == base + Start(v, from)
    requires mem[base..base + |Block(v)|] == Block(v)
    modifies mem
    ensures p == base + Start(v, from + n) && Table(mem[..], table, base, v, from, n)
    ensures forall k :: 0 <= k < mem.Length && (k < table || table + 4 * n + 4 <= k) ==> mem[k] == old(mem[k])
  {
    hide Long, PutLong, Block, Text, Start;
    p := p0;
    var i, t := 0, table;
    while i < n
      invariant 0 <= i <= n && t == table + 4 * i && p == base + Start(v, from + i)
      invariant forall j :: 0 <= j < i ==> Long(mem[..], table + 4 * j) == base + Start(v, from + j)
      invariant forall k :: 0 <= k < mem.Length && (k < table || table + 4 * n + 4 <= k) ==> mem[k] == old(mem[k])
    {
      ghost var m := mem[..];
      StringAt(v, from + i);
      PutLongGets(m, t, p);
      PutLongFrame(m, t, p);
      PutFsLong(mem, t, p);
      p := SkipString(mem, p, base, v, from + i);
      i, t := i + 1, t + 4;
    }
    PutLongGets(mem[..], t, 0);
    PutLongFrame(mem[..], t, 0);
    PutFsLong(mem, t, 0);
  }

  /** `while (get_fs_byte(p++))`. */
  method SkipString(mem: array<int>, p0: int, ghost base: int, ghost v: seq<seq<int>>, ghost i: nat) returns (p: int)
    requires 0 <= base && base + |Block(v)| <= mem.Length && i < |v| && Texts(v) && p0 == base + Start(v, i)
    requires mem[base..base + |Block(v)|] == Block(v)
    ensures p == base + Start(v, i + 1)
  {
    hide Block, Start, Text;
    ghost var m := mem[..];
    StringIn(m, base, v, i);
    p := p0;
    while mem[p] != 0
      invariant p0 <= p <= p0 + |v[i]|
      decreases p0 + |v[i]| - p
    {
      assert m[p] == mem[p];
      p := p + 1;
    }
    assert m[p] == mem[p];
    p := p + 1;
  }

  /** The i-th string as it lies in memory. */
  lemma StringIn(m: seq<int>, base: int, v: seq<seq<int>>, i: nat)
    requires 0 <= base && base + |Block(v)| <= |m| && i < |v| && Texts(v) && m[base..base + |Block(v)|] == Block(v)
    ensures Start(v, i + 1) == Start(v, i) + |v[i]| + 1 <= |Block(v)|
    ensures forall q :: base + Start(v, i) <= q < base + Start(v, i) + |v[i]| ==> m[q] != 0
    ensures m[base + Start(v, i) + |v[i]|] == 0
  {
    hide Block, Start;
    StringAt(v, i);
    StartNext(v, i);
    var s, n := base + Start(v, i), |v[i]|;
    Slices(m, base, base + |Block(v)|, Start(v, i), n);
    forall q | s <= q < s + n
      ensures m[q] != 0
    {
      assert m[q] == m[s..s + n][q - s] == v[i][q - s];
    }
  }

  /** The new stack pointer, given where the strings start. */
  function StackFor(p: int, argc: nat, envc: nat): int {
    p - p % 4 - 4 * (envc + 1) - 4 * (argc + 1) - 12
  }

  method CreateTables(mem: array<int>, p: int, argc: nat, envc: nat, ghost v: seq<seq<int>>) returns (sp: int)
    requires argc + envc <= |v| && Texts(v) && 0 <= p && p + |Block(v)| <= mem.Length <= 0x1_0000_0000
    requires mem[p..p + |Block(v)|] == Block(v)
    requires StackFor(p, argc, envc) >= 0
    modifies mem
    ensures sp == StackFor(p, argc, envc) && sp % 4 == 0
    ensures var argv, envp := sp + 12, sp + 12 + 4 * (argc + 1);
            && envp + 4 * (envc + 1) <= p
            && Long(mem[..], sp) == argc && Long(mem[..], sp + 4) == argv && Long(mem[..], sp + 8) == envp
            && Table(mem[..], argv, p, v, 0, argc) && Table(mem[..], envp, p, v, argc, envc)
    ensures forall k :: 0 <= k < mem.Length && (k < sp || p <= k) ==> mem[k] == old(mem[k])
  {
    hide Long, PutLong, Block, Text, Start, Table;
    StartNone(v);
    sp := p - p % 4;
    sp := sp - 4 * (envc + 1);
    var envp := sp;
    sp := sp - 4 * (argc + 1);
    var argv := sp;
    sp := sp - 12;
    ghost var m0 := mem[..];
    PutFsLong(mem, sp + 8, envp);
    ghost var m1 := mem[..];
    PutFsLong(mem, sp + 4, argv);
    ghost var m2 := mem[..];
    PutFsLong(mem, sp, argc);
    Header(m0, m1, m2, sp, argc, argv, envp);
    ghost var m3 := mem[..];
    assert mem[p..p + |Block(v)|] == m0[p..p + |Block(v)|];
    var q := FillTable(mem, argv, p, argc, p, v, 0);
    ghost var m4 := mem[..];
    assert mem[p..p + |Block(v)|] == m0[p..p + |Block(v)|];
    var _ := FillTable(mem, envp, q, envc, p, v, argc);
    SameLongs(m3, mem[..], sp, sp + 12);
    TableSame(m4, mem[..], argv, p, v, 0, argc);
  }

  lemma Header(m0: seq<int>, m1: seq<int>, m2: seq<int>, sp: int, argc: int, argv: int, envp: int)
    requires 0 <= sp && sp + 12 <= |m0| && 0 <= argc < 0x1_0000_0000 && 0 <= argv < 0x1_0000_0000
      && 0 <= envp < 0x1_0000_0000
    requires m1 == PutLong(m0, sp + 8, envp) && m2 == PutLong(m1, sp + 4, argv)
    ensures var m := PutLong(m2, sp, argc);
            Long(m, sp) == argc && Long(m, sp + 4) == argv && Long(m, sp + 8) == envp
            && (forall k :: 0 <= k < |m0| && (k < sp || sp + 12 <= k) ==> m[k] == m0[k])
  {
    PutLongGets(m0, sp + 8, envp);
    PutLongGets(m1, sp + 4, argv);
    PutLongGets(m2, sp, argc);
    PutLongFrame(m1, sp + 4, argv);
    PutLongFrame(m2, sp, argc);
    PutLongFrame(m0, sp + 8, envp);
    hide PutLong, Long;
  }

  lemma SameLongs(m: seq<int>, r: seq<int>, lo: int, hi: int)
    requires |r| == |m| && 0 <= lo && hi <= |m| && (forall k :: lo <= k < hi ==> r[k] == m[k])
    ensures forall a :: lo <= a && a + 4 <= hi ==> Long(r, a) == Long(m, a)
  {
  }

  lemma TableSame(m: seq<int>, r: seq<int>, table: int, base: int, v: seq<seq<int>>, from: nat, n: nat)
    requires 0 <= table && table + 4 * n + 4 <= |m| == |r| && from + n <= |v| && Table(m, table, base, v, from, n)
    requires forall k :: table <= k < table + 4 * n + 4 ==> r[k] == m[k]
    ensures Table(r, table, base, v, from, n)
  {
    SameLongs(m, r, table, table + 4 * n + 4);
    hide Long;
  }

  // ---- the #! line ----

  /** The parse in do_execve, on the text behind "#!" up to its first NUL. */
  method ParseBang(text: seq<int>) returns (b: Bang)
    ensures b == Bangs(text)
  {
    var n := 0;
    while n < |text| && text[n] != NEWLINE
      invariant n <= |text| && Find(text, NEWLINE, 0) == Find(text, NEWLINE, n)
    {
      n := n + 1;
    }
    if n == |text| {
      return NoInterpreter;
    }
    var line := text[..n];
    var cp := 0;
    while cp < n && Blank(line[cp])
      invariant cp <= n && SkipBlanks(line, 0) == SkipBlanks(line, cp)
    {
      cp := cp + 1;
    }
    if cp == n {
      return NoInterpreter;
    }
    var interp, name := cp, cp;
    while cp < n && !Blank(line[cp])
      invariant interp <= name <= cp <= n && WordEnd(line, interp) == WordEnd(line, cp)
      invariant name == BaseName(line, interp, cp)
    {
      if line[cp] == SLASH {
        name := cp + 1;
      }
      cp := cp + 1;
    }
    return Bang(line[interp..cp], line[name..cp], if cp < n then [line[cp + 1..]] else []);
  }

  // ---- do_execve, as far as the argument block goes ----

  /** `Overrun`: page[] was indexed past its end; what the code does then is not known. */
  datatype Outcome = NoExec | NoMemory | Overrun | Started(sp: int, argc: nat)

  /** The strings copied: the program's own, or the script's behind its interpreter's. */
  function Vector(script: bool, text: seq<int>, filename: seq<int>, argv: seq<seq<int>>): seq<seq<int>>
    requires script ==> Bangs(text).Bang?
  {
    if script then Spliced(Bangs(text), filename, argv) else argv
  }

  /** argc as do_execve counts it: a script started without even argv[0] is one short. */
  function Argc(script: bool, v: seq<seq<int>>, argv: seq<seq<int>>): int {
    if script && argv == [] then |v| - 1 else |v|
  }

  /** The strings in the new program's memory are those of `all`; argv names the first
      `argc` of them and envp the next `envc`. */
  ghost predicate Laid(mem: seq<int>, sp: int, all: seq<seq<int>>, argc: nat, envc: nat)
  {
    var argv, envp, p := sp + 12, sp + 12 + 4 * (argc + 1), DATA_LIMIT - 4 - |Block(all)|;
    && argc + envc <= |all|
    && 0 <= sp && sp % 4 == 0 && envp + 4 * (envc + 1) <= p && DATA_LIMIT == |mem|
    && Long(mem, sp) == argc && Long(mem, sp + 4) == argv && Long(mem, sp + 8) == envp
    && Table(mem, argv, p, all, 0, argc) && Table(mem, envp, p, all, argc, envc)
    && mem[p..DATA_LIMIT - 4] == Block(all)
  }

  /** change_ldt: the argument pages become the top of the data segment. */
  method ChangeLdt(mem: array<int>, a: ArgPages)
    requires a.Valid() && mem.Length == DATA_LIMIT
    requires forall k :: DATA_LIMIT - SPACE <= k < DATA_LIMIT ==> mem[k] == 0
    modifies mem
    ensures mem[DATA_LIMIT - SPACE..] == a.Bytes()
  {
    var base := DATA_LIMIT;
    var i := MAX_ARG_PAGES;
    while i > 0
      invariant 0 <= i <= MAX_ARG_PAGES && base == DATA_LIMIT - SPACE + i * PAGE_SIZE
      invariant forall k :: DATA_LIMIT - SPACE <= k < base ==> mem[k] == 0
      invariant forall k :: i * PAGE_SIZE <= k < SPACE ==> mem[DATA_LIMIT - SPACE + k] == ByteAt(a.page[..], k)
    {
      i := i - 1;
      base := base - PAGE_SIZE;
      if a.page[i] != [] {
        PutPage(mem, base, a.page[i]);
      }
      forall k | i * PAGE_SIZE <= k < (i + 1) * PAGE_SIZE
        ensures mem[DATA_LIMIT - SPACE + k] == ByteAt(a.page[..], k)
      {
        assert k / PAGE_SIZE == i && k % PAGE_SIZE == k - i * PAGE_SIZE;
      }
    }
  }

  /** The page's bytes now stand at `base`. */
  method PutPage(mem: array<int>, base: int, page: seq<int>)
    requires 0 <= base && base + PAGE_SIZE <= mem.Length && |page| == PAGE_SIZE
    modifies mem
    ensures forall k :: 0 <= k < mem.Length ==> mem[k] == if base <= k < base + PAGE_SIZE then page[k - base]
      else old(mem[k])
  {
    for j := 0 to PAGE_SIZE
      invariant forall k :: 0 <= k < mem.Length ==> mem[k] == if base <= k < base + j then page[k - base]
        else old(mem[k])
    {
      mem[base + j] := page[j];
    }
  }

  method DoExecve(mem: array<int>, pages: nat, script: bool, text: seq<int>, filename: seq<int>, argv: seq<seq<int>>,
      envp: seq<seq<int>>)
    returns (r: Outcome)
    requires mem.Length == DATA_LIMIT && (forall k :: DATA_LIMIT - SPACE <= k < DATA_LIMIT ==> mem[k] == 0)
    requires Text(text) && Text(filename) && Texts(argv) && Texts(envp)
    modifies mem
    ensures r.NoExec? <==> script && Bangs(text).NoInterpreter?
    ensures r.Overrun? ==> RoomLeft(script, text, filename, argv, envp) == Wild
    ensures r.NoMemory? ==> pages < MAX_ARG_PAGES || RoomLeft(script, text, filename, argv, envp) == At(0)
    ensures r.Started? ==> var room := RoomLeft(script, text, filename, argv, envp); room.At? && room.p > 0
    ensures r.Started? ==>
              var v := Vector(script, text, filename, argv);
              r.argc == Argc(script, v, argv) && Laid(mem[..], r.sp, v + envp, r.argc, |envp|)
  {
    hide Block, Flat, Packed, Laid, Texts;
    NothingPacked();
    assert envp + [] == envp;
    var a := new ArgPages(pages);
    var p, wild, argc := SPACE - 4, false, |argv|;
    ghost var v := argv;
    if script {
      var b := ParseBang(text);
      if b.NoInterpreter? {
        return NoExec;
      }
      v := Spliced(b, filename, argv);
      BangTexts(text);
      p, argc, wild := Splice(a, b, filename, argv, envp);
    } else {
      p, wild := Copy(a, envp, p, []);
      if !wild {
        p, wild := Copy(a, argv, p, envp);
      }
    }
    if wild {
      return Overrun;
    }
    if p == 0 {
      return NoMemory;
    }
    VectorTexts(script, text, filename, argv, envp);
    var sp := Launch(mem, a, p, argc, v + envp, |envp|);
    return Started(sp, argc);
  }

  /** The copies made for a script, from the environment forward to the name. */
  method Splice(a: ArgPages, b: Bang, filename: seq<int>, argv: seq<seq<int>>, envp: seq<seq<int>>)
    returns (p: nat, argc: int, wild: bool)
    requires a.Valid() && b.Bang? && Packed(a.Bytes(), SPACE - 4, [])
    requires Text(filename) && Texts(argv) && Texts(envp) && Text(b.name) && Texts(b.args) && |b.args| <= 1
    modifies a, a.page
    ensures a.Valid() && p < SPACE
    ensures var name := |Block([b.name])|;
      var room := Left(|Block(envp)|, |Block(Rest(argv))|, |Block([filename])|, |Block(b.args)|, name);
      && (wild ==> room == Wild)
      && (!wild && p > 0 ==> room == At(p))
      && (old(a.Enough()) ==> room == if wild then Wild else At(p))
    ensures !wild ==> argc == Argc(true, Spliced(b, filename, argv), argv)
    ensures !wild && p > 0 ==> Packed(a.Bytes(), p, Spliced(b, filename, argv) + envp)
  {
    hide Block, Packed;
    Parts(b, filename, argv, envp);
    ghost var w := Rest(argv) + envp;
    ghost var x := [filename] + w;
    ghost var y := b.args + x;
    assert envp + [] == envp;
    argc := |argv|;
    p, wild := Copy(a, envp, SPACE - 4, []);
    if wild { return; }
    p, wild := Copy(a, Rest(argv), p, envp);
    if wild { return; }
    argc := argc - 1;
    p, wild := Copy(a, [filename], p, w);
    if wild { return; }
    argc := argc + 1;
    if b.args != [] {
      p, wild := Copy(a, b.args, p, x);
      if wild { return; }
      argc := argc + 1;
    } else {
      NothingPacked();
      assert y == x;
    }
    p, wild := Copy(a, [b.name], p, y);
    if wild { return; }
    argc := argc + 1;
  }

  /** From the argument pages to the stack of the new program. */
  method Launch(mem: array<int>, a: ArgPages, p: nat, argc: nat, ghost all: seq<seq<int>>, envc: nat) returns (sp: int)
    requires a.Valid() && mem.Length == DATA_LIMIT && (forall k :: DATA_LIMIT - SPACE <= k < DATA_LIMIT ==> mem[k] == 0)
    requires p > 0 && Packed(a.Bytes(), p, all) && Texts(all) && argc + envc <= |all|
    modifies mem
    ensures Laid(mem[..], sp, all, argc, envc)
  {
    hide Block, Flat, Table, Long;
    ChangeLdt(mem, a);
    var top := p + (DATA_LIMIT - SPACE);
    ghost var m := mem[..];
    assert m[top..DATA_LIMIT - 4] == m[DATA_LIMIT - SPACE..][p..SPACE - 4] == a.Bytes()[p..SPACE - 4];
    BlockCount(all);
    sp := CreateTables(mem, top, argc, envc, all);
    assert mem[top..DATA_LIMIT - 4] == m[top..DATA_LIMIT - 4];
  }

  lemma VectorTexts(script: bool, text: seq<int>, filename: seq<int>, argv: seq<seq<int>>, envp: seq<seq<int>>)
    requires script ==> Bangs(text).Bang?
    requires Text(text) && Text(filename) && Texts(argv) && Texts(envp)
    ensures Texts(Vector(script, text, filename, argv) + envp)
  {
    hide Text, Bangs;
    if script {
      BangTexts(text);
    }
  }

  /** One more group of strings in front of those already there. */
  method Copy(a: ArgPages, strings: seq<seq<int>>, p0: nat, ghost behind: seq<seq<int>>) returns (p: nat, wild: bool)
    requires a.Valid() && Texts(strings) && p0 < SPACE
    requires p0 > 0 ==> Packed(a.Bytes(), p0, behind)
    modifies a, a.page
    ensures a.Valid() && p < SPACE
    ensures wild ==> Take(At(p0), |Block(strings)|) == Wild
    ensures !wild && p > 0 ==> Packed(a.Bytes(), p, strings + behind) && Take(At(p0), |Block(strings)|) == At(p)
    ensures p0 == 0 ==> p == 0 && !wild
    ensures old(a.Enough()) ==> Take(At(p0), |Block(strings)|) == if wild then Wild else At(p)
    ensures old(a.Enough()) && !wild ==> a.Enough()
  {
    BlockConcat(strings, behind);
    p, wild := a.CopyStrings(strings, p0);
    if wild {
      p := 0;
    }
  }

  ghost predicate Packed(bytes: seq<int>, p: int, v: seq<seq<int>>)
    requires |bytes| == SPACE
  {
    0 < p <= SPACE - 4 && p == SPACE - 4 - |Block(v)| && bytes[p..SPACE - 4] == Block(v)
  }

  lemma NothingPacked()
    ensures Block([]) == [] && Packed(Zeros(SPACE), SPACE - 4, [])
  {
  }

  lemma Parts(b: Bang, filename: seq<int>, argv: seq<seq<int>>, envp: seq<seq<int>>)
    requires b.Bang?
    ensures Spliced(b, filename, argv) + envp == [b.name] + (b.args + ([filename] + (Rest(argv) + envp)))
    ensures |Block(Spliced(b, filename, argv) + envp)|
      == |Block([b.name])| + |Block(b.args)| + |Block([filename])| + |Block(Rest(argv))| + |Block(envp)|
  {
    hide Block, Rest;
    var w := Rest(argv) + envp;
    var x := [filename] + w;
    BlockConcat(Rest(argv), envp);
    BlockConcat([filename], w);
    BlockConcat(b.args, x);
    BlockConcat([b.name], b.args + x);
    assert Spliced(b, filename, argv) + envp == [b.name] + (b.args + x);
  }

  /** The program is started, given pages enough, exactly when all its strings together
      are shorter than the room. */
  lemma RoomFits(script: bool, text: seq<int>, filename: seq<int>, argv: seq<seq<int>>, envp: seq<seq<int>>)
    requires script ==> Bangs(text).Bang?
    ensures var n := |Block(Vector(script, text, filename, argv) + envp)|;
            var r := RoomLeft(script, text, filename, argv, envp);
            && (n < SPACE - 4 <==> r.At? && r.p > 0)
            && (n < SPACE - 4 ==> r == At(SPACE - 4 - n))
            && (r == Wild ==> n > SPACE - 4)
  {
    hide Block;
    if script {
      Parts(Bangs(text), filename, argv, envp);
    } else {
      BlockConcat(argv, envp);
    }
  }

  /** The failing input: one argument longer than the pages. */
  lemma TooLong(text: seq<int>)
    requires |text| >= SPACE - 4
    ensures RoomLeft(false, [], [], [text], []) == Wild
  {
    assert [text][1..] == [];
  }

  /** A script started with an empty vector finds its own name as its first environment
      string, and the last one of the environment is lost. */
  lemma EmptyVector(b: Bang, filename: seq<int>, envp: seq<seq<int>>)
    requires b.Bang?
    ensures var v := Spliced(b, filename, []);
      Argc(true, v, []) == |v| - 1 && (v + envp)[Argc(true, v, [])] == filename
  {
  }

  /** The round trip: following the new program's own pointers gives back the strings. */
  lemma ArgumentsRead(mem: seq<int>, sp: int, all: seq<seq<int>>, argc: nat, envc: nat, i: nat)
    requires Laid(mem, sp, all, argc, envc)
    ensures i < argc ==> var a := Long(mem, Long(mem, sp + 4) + 4 * i);
              0 <= a && a + |all[i]| < |mem| && mem[a..a + |all[i]|] == all[i] && mem[a + |all[i]|] == 0
    ensures i < envc ==> var a, s := Long(mem, Long(mem, sp + 8) + 4 * i), all[argc + i];
              0 <= a && a + |s| < |mem| && mem[a..a + |s|] == s && mem[a + |s|] == 0
    ensures Long(mem, Long(mem, sp + 4) + 4 * argc) == 0 == Long(mem, Long(mem, sp + 8) + 4 * envc)
  {
    hide Long, Block, Start;
    var p := DATA_LIMIT - 4 - |Block(all)|;
    if i < argc {
      StringAt(all, i);
      Slices(mem, p, DATA_LIMIT - 4, Start(all, i), |all[i]|);
    }
    if i < envc {
      StringAt(all, argc + i);
      Slices(mem, p, DATA_LIMIT - 4, Start(all, argc + i), |all[argc + i]|);
    }
  }

  lemma StartNone(v: seq<seq<int>>)
    ensures Start(v, 0) == 0
  {
  }

  lemma Slices(mem: seq<int>, lo: int, hi: int, a: int, n: nat)
    requires 0 <= lo <= hi <= |mem| && 0 <= a && lo + a + n < hi
    ensures mem[lo..hi][a..a + n] == mem[lo + a..lo + a + n] && mem[lo..hi][a + n] == mem[lo + a + n]
  {
    var x, y := mem[lo..hi][a..a + n], mem[lo + a..lo + a + n];
    forall k | 0 <= k < n
      ensures x[k] == y[k]
    {
      assert mem[lo..hi][a + k] == mem[lo + (a + k)];
    }
    assert x == y;
  }
}
