/** Descriptor slots, the file table and pipe inodes: the values behind fs/open.c,
    fs/fcntl.c, sys_pipe and the descriptor parts of fork and exit. */
module DescriptorModel {

  const NR_TASKS: int := 64
  const NR_OPEN: int := 20
  const NR_FILE: int := 64
  const NONE: int := -1

  /** `ready`: f_inode has been set; not so while open_namei is still at work. */
  datatype File = File(count: nat, ready: bool, inode: int, mode: int)

  /** `held`: the part of i_count owed to current and root directories, executables,
      mounts and path walks rather than to open files. */
  datatype Inode = Inode(pipe: bool, count: nat, held: nat)

  /** `filp` per task; `pending` are the descriptors a task has reserved and not yet opened. */
  datatype Tables = Tables(filp: seq<seq<int>>, pending: seq<set<int>>, file: seq<File>, inode: seq<Inode>)

  ghost predicate Shape(s: Tables) {
    && |s.filp| == |s.pending| == NR_TASKS && |s.file| == NR_FILE
    && (forall t :: 0 <= t < NR_TASKS ==> |s.filp[t]| == NR_OPEN)
    && (forall t, d :: 0 <= t < NR_TASKS && 0 <= d < NR_OPEN ==> NONE <= s.filp[t][d] < NR_FILE)
  }

  predicate Slot(t: int, d: int) {
    0 <= t < NR_TASKS && 0 <= d < NR_OPEN
  }

  ghost predicate Names(s: Tables, t: int, d: int, f: int)
    requires Shape(s)
  {
    Slot(t, d) && s.filp[t][d] == f
  }

  /** The descriptor slots that name file f. */
  ghost function Refs(s: Tables, f: int): set<(int, int)>
    requires Shape(s)
  {
    set t: int, d: int | 0 <= t < NR_TASKS && 0 <= d < NR_OPEN && Names(s, t, d, f) :: (t, d)
  }

  /** Open files on inode p. */
  predicate End(s: Tables, p: int, f: int) {
    0 <= f < |s.file| && s.file[f].count > 0 && s.file[f].ready && s.file[f].inode == p
  }

  ghost function Ends(s: Tables, p: int): set<int> {
    set f: int | 0 <= f < |s.file| && End(s, p, f)
  }

  // ---- the invariant ----

  ghost predicate CountsExact(s: Tables)
    requires Shape(s)
  {
    forall f :: 0 <= f < NR_FILE ==> s.file[f].count == |Refs(s, f)|
  }

  predicate Unready(s: Tables, t: int, d: int)
    requires Slot(t, d) && t < |s.filp| && d < |s.filp[t]|
  {
    var f := s.filp[t][d];
    0 <= f < |s.file| && !s.file[f].ready
  }

  /** Files not yet ready are named by exactly one descriptor, which is being opened. */
  ghost predicate PendingOk(s: Tables)
    requires Shape(s)
  {
    forall t, d :: Slot(t, d) ==>
      (Unready(s, t, d) <==> d in s.pending[t]) && (Unready(s, t, d) ==> s.file[s.filp[t][d]].count == 1)
  }

  ghost predicate InodesOk(s: Tables) {
    && (forall f :: 0 <= f < |s.file| && s.file[f].count > 0 && s.file[f].ready ==> 0 <= s.file[f].inode < |s.inode|)
    && (forall p :: 0 <= p < |s.inode| ==>
          s.inode[p].count == |Ends(s, p)| + s.inode[p].held
            && (s.inode[p].pipe ==> s.inode[p].held == 0 && |Ends(s, p)| > 0))
  }

  predicate SameEnd(s: Tables, p: int, f: int, g: int) {
    End(s, p, f) && End(s, p, g) && 0 <= p < |s.inode| && s.inode[p].pipe && s.file[f].mode == s.file[g].mode
  }

  /** A pipe has at most one read end and one write end. */
  ghost predicate TwoEnds(s: Tables) {
    && (forall p, f, g :: SameEnd(s, p, f, g) ==> f == g)
    && (forall p, f ::
          End(s, p, f) && 0 <= p < |s.inode| && s.inode[p].pipe ==> s.file[f].mode == 1 || s.file[f].mode == 2)
  }

  ghost predicate Inv(s: Tables) {
    Shape(s) && CountsExact(s) && PendingOk(s) && InodesOk(s) && TwoEnds(s)
  }

  // ---- what it means ----

  /** Some descriptor names the end of pipe p with the given mode. */
  ghost predicate HasEnd(s: Tables, p: int, m: int)
    requires Shape(s)
  {
    exists t, d :: Slot(t, d) && s.filp[t][d] != NONE && End(s, p, s.filp[t][d]) && s.file[s.filp[t][d]].mode == m
  }

  lemma EndHasSlot(s: Tables, p: int, f: int)
    requires Inv(s) && End(s, p, f)
    ensures HasEnd(s, p, s.file[f].mode)
  {
    assert |Refs(s, f)| > 0;
    var r :| r in Refs(s, f);
    assert Names(s, r.0, r.1, f);
  }

  /** A pipe's count is 2 exactly while some descriptor, in some task, still names
      its read end and some descriptor still names its write end. */
  lemma PipeCount(s: Tables, p: int)
    requires Inv(s) && 0 <= p < |s.inode| && s.inode[p].pipe
    ensures 1 <= s.inode[p].count <= 2
    ensures s.inode[p].count == 2 <==> (HasEnd(s, p, 1) && HasEnd(s, p, 2))
  {
    var e := Ends(s, p);
    var f :| f in e;
    forall t, d | Slot(t, d) && s.filp[t][d] != NONE && End(s, p, s.filp[t][d])
      ensures s.filp[t][d] in e
    {
    }
    if e - {f} == {} {
      assert e == {f};
    } else {
      var g :| g in e - {f};
      assert !SameEnd(s, p, f, g);
      forall x | x in e
        ensures x in {f, g}
      {
        assert End(s, p, x);
        assert SameEnd(s, p, x, f) || SameEnd(s, p, x, g);
      }
      assert e == {f, g};
      EndHasSlot(s, p, f);
      EndHasSlot(s, p, g);
    }
  }

  /** A free file-table entry is named by no descriptor. */
  lemma FreeFileUnnamed(s: Tables, f: int)
    requires Inv(s) && 0 <= f < NR_FILE && s.file[f].count == 0
    ensures forall t, d :: Slot(t, d) ==> s.filp[t][d] != f
  {
    forall t, d | Slot(t, d)
      ensures s.filp[t][d] != f
    {
      assert (t, d) in Refs(s, f) <==> Names(s, t, d, f);
    }
  }

  // ---- elementary changes ----

  function SetSlot(s: Tables, t: int, d: int, f: int): Tables
    requires 0 <= t < |s.filp| && 0 <= d < |s.filp[t]|
  {
    s.(filp := s.filp[t := s.filp[t][d := f]])
  }

  function SetFile(s: Tables, f: int, x: File): Tables
    requires 0 <= f < |s.file|
  {
    s.(file := s.file[f := x])
  }

  lemma RefsAfter(s: Tables, t: int, d: int, f: int, g: int)
    requires Shape(s) && Slot(t, d) && NONE <= f < NR_FILE
    ensures Shape(SetSlot(s, t, d, f))
    ensures |Refs(SetSlot(s, t, d, f), g)|
      == |Refs(s, g)| - (if s.filp[t][d] == g then 1 else 0) + (if f == g then 1 else 0)
  {
    var r := SetSlot(s, t, d, f);
    forall p: (int, int)
      ensures p in Refs(s, g) <==> Names(s, p.0, p.1, g)
      ensures p in Refs(r, g) <==> Names(r, p.0, p.1, g)
    {
      assert p == (p.0, p.1);
    }
    forall p: (int, int) | p != (t, d)
      ensures Names(r, p.0, p.1, g) <==> Names(s, p.0, p.1, g)
    {
    }
    assert Names(s, t, d, g) <==> s.filp[t][d] == g;
    assert Names(r, t, d, g) <==> f == g;
    hide Refs, Names;
    SameBut(Refs(s, g), Refs(r, g), (t, d));
  }

  /** Sets that differ at most in x. */
  lemma SameBut(a: set<(int, int)>, b: set<(int, int)>, x: (int, int))
    requires forall p :: p != x ==> (p in a <==> p in b)
    ensures |b| == |a| - (if x in a then 1 else 0) + (if x in b then 1 else 0)
  {
    assert a - {x} == b - {x};
    assert a == if x in a then (a - {x}) + {x} else a - {x};
    assert b == if x in b then (b - {x}) + {x} else b - {x};
  }

  lemma RefsFrame(s: Tables, r: Tables, g: int)
    requires Shape(s) && Shape(r) && r.filp == s.filp
    ensures Refs(r, g) == Refs(s, g)
  {
    assert forall t, d :: Names(r, t, d, g) <==> Names(s, t, d, g);
  }

  // ---- naming an open file once more (dup, fork) ----

  function Attach(s: Tables, t: int, d: int, f: int): Tables
    requires Shape(s) && Slot(t, d) && 0 <= f < NR_FILE
  {
    SetFile(SetSlot(s, t, d, f), f, s.file[f].(count := s.file[f].count + 1))
  }

  lemma AttachCounts(s: Tables, t: int, d: int, f: int)
    requires Shape(s) && CountsExact(s) && Slot(t, d) && s.filp[t][d] == NONE && 0 <= f < NR_FILE
    ensures Shape(Attach(s, t, d, f)) && CountsExact(Attach(s, t, d, f))
  {
    var m := SetSlot(s, t, d, f);
    var r := Attach(s, t, d, f);
    forall g | 0 <= g < NR_FILE
      ensures r.file[g].count == |Refs(r, g)|
    {
      RefsAfter(s, t, d, f, g);
      RefsFrame(m, r, g);
    }
  }

  lemma SameEnds(s: Tables, r: Tables)
    requires |r.file| == |s.file| && r.inode == s.inode
    requires forall f :: 0 <= f < |s.file| ==>
      (r.file[f].count > 0 && r.file[f].ready <==> s.file[f].count > 0 && s.file[f].ready)
      && r.file[f].inode == s.file[f].inode && r.file[f].mode == s.file[f].mode
    ensures forall p :: Ends(r, p) == Ends(s, p)
    ensures InodesOk(s) ==> InodesOk(r)
    ensures TwoEnds(s) ==> TwoEnds(r)
  {
    assert forall p, f :: End(r, p, f) <==> End(s, p, f);
    assert forall p :: Ends(r, p) == Ends(s, p);
    assert forall p, f, g :: SameEnd(r, p, f, g) <==> SameEnd(s, p, f, g);
  }

  lemma AttachKeeps(s: Tables, t: int, d: int, f: int)
    requires Inv(s) && Slot(t, d) && s.filp[t][d] == NONE && 0 <= f < NR_FILE && s.file[f].count > 0 && s.file[f].ready
    ensures Inv(Attach(s, t, d, f))
  {
    AttachCounts(s, t, d, f);
    SameEnds(s, Attach(s, t, d, f));
  }

  // ---- dropping a name (close) ----

  function Drop(s: Tables, t: int, d: int): Tables
    requires Shape(s) && Slot(t, d) && s.filp[t][d] != NONE && s.file[s.filp[t][d]].count > 0
  {
    var f := s.filp[t][d];
    SetFile(SetSlot(s, t, d, NONE), f, s.file[f].(count := s.file[f].count - 1))
  }

  lemma DropCounts(s: Tables, t: int, d: int)
    requires Shape(s) && CountsExact(s) && Slot(t, d) && s.filp[t][d] != NONE
    ensures s.file[s.filp[t][d]].count > 0
    ensures Shape(Drop(s, t, d)) && CountsExact(Drop(s, t, d))
  {
    var f := s.filp[t][d];
    assert (t, d) in Refs(s, f) by { assert Names(s, t, d, f); }
    assert |Refs(s, f)| > 0;
    var m := SetSlot(s, t, d, NONE);
    var r := Drop(s, t, d);
    forall g | 0 <= g < NR_FILE
      ensures r.file[g].count == |Refs(r, g)|
    {
      RefsAfter(s, t, d, NONE, g);
      RefsFrame(m, r, g);
    }
  }

  /** iput, as far as descriptors are concerned. */
  function Iput(s: Tables, p: int): Tables
    requires 0 <= p < |s.inode| && s.inode[p].count > 0
  {
    var n := s.inode[p].count - 1;
    s.(inode := s.inode[p := Inode(s.inode[p].pipe && n > 0, n, s.inode[p].held)])
  }

  /** sys_close on an open descriptor. */
  function Close(s: Tables, t: int, d: int): Tables
    requires Shape(s) && Slot(t, d) && s.filp[t][d] != NONE && s.file[s.filp[t][d]].count > 0
    requires 0 <= s.file[s.filp[t][d]].inode < |s.inode| && s.inode[s.file[s.filp[t][d]].inode].count > 0
  {
    var f := s.filp[t][d];
    var r := Drop(s, t, d);
    if s.file[f].count > 1 then r else Iput(r, s.file[f].inode)
  }

  lemma LastEnd(s: Tables, f: int, r: Tables)
    requires 0 <= f < |s.file| == |r.file| && s.file[f].count > 0 && s.file[f].ready && r.file[f].count == 0
    requires forall g :: 0 <= g < |s.file| && g != f ==> r.file[g] == s.file[g]
    ensures forall p :: Ends(r, p) == if p == s.file[f].inode then Ends(s, p) - {f} else Ends(s, p)
    ensures f in Ends(s, s.file[f].inode)
  {
    assert forall p, g :: End(r, p, g) <==> End(s, p, g) && g != f;
  }

  lemma CloseKeeps(s: Tables, t: int, d: int)
    requires Inv(s) && Slot(t, d) && s.filp[t][d] != NONE && d !in s.pending[t]
    ensures var f := s.filp[t][d];
      s.file[f].count > 0 && s.file[f].ready && 0 <= s.file[f].inode < |s.inode| && s.inode[s.file[f].inode].count > 0
    ensures Inv(Close(s, t, d))
  {
    var f := s.filp[t][d];
    DropCounts(s, t, d);
    var p := s.file[f].inode;
    assert !Unready(s, t, d);
    assert End(s, p, f) && f in Ends(s, p);
    assert |Ends(s, p)| > 0;
    var r := Drop(s, t, d);
    if s.file[f].count > 1 {
      SameEnds(s, r);
      DropPending(s, t, d, r);
    } else {
      CloseLast(s, t, d, p);
    }
  }

  lemma DropPending(s: Tables, t: int, d: int, r: Tables)
    requires Shape(s) && Shape(r) && PendingOk(s) && Slot(t, d) && s.filp[t][d] != NONE && d !in s.pending[t]
    requires r.filp == SetSlot(s, t, d, NONE).filp && r.pending == s.pending
    requires forall g :: 0 <= g < NR_FILE ==> r.file[g].ready == s.file[g].ready
    requires forall g :: 0 <= g < NR_FILE && g != s.filp[t][d] ==> r.file[g].count == s.file[g].count
    ensures PendingOk(r)
  {
    assert !Unready(s, t, d);
    forall u, b | Slot(u, b)
      ensures (Unready(r, u, b) <==> b in r.pending[u]) && (Unready(r, u, b) ==> r.file[r.filp[u][b]].count == 1)
    {
      assert (u, b) != (t, d) ==> r.filp[u][b] == s.filp[u][b];
      assert (u, b) != (t, d) ==> (Unready(r, u, b) <==> Unready(s, u, b));
    }
  }

  lemma CloseLast(s: Tables, t: int, d: int, p: int)
    requires Inv(s) && Slot(t, d) && s.filp[t][d] != NONE && d !in s.pending[t]
    requires var f := s.filp[t][d]; s.file[f].count == 1 && s.file[f].ready && s.file[f].inode == p
    requires 0 <= p < |s.inode| && s.inode[p].count > 0
    ensures Inv(Close(s, t, d))
  {
    var f := s.filp[t][d];
    var m := Drop(s, t, d);
    DropCounts(s, t, d);
    var r := Close(s, t, d);
    forall g | 0 <= g < NR_FILE
      ensures r.file[g].count == |Refs(r, g)|
    {
      RefsFrame(m, r, g);
    }
    DropPending(s, t, d, r);
    EndGone(s, r, f, p);
  }

  /** The last name of f is gone, and with it its share of the inode. */
  lemma EndGone(s: Tables, r: Tables, f: int, p: int)
    requires InodesOk(s) && TwoEnds(s) && End(s, p, f) && 0 <= p < |s.inode| && s.inode[p].count > 0
    requires |r.file| == |s.file| && r.file[f].count == 0 && r.inode == Iput(s, p).inode
    requires forall g :: 0 <= g < |s.file| && g != f ==> r.file[g] == s.file[g]
    ensures InodesOk(r) && TwoEnds(r)
  {
    LastEnd(s, f, r);
    assert |Ends(r, p)| == |Ends(s, p)| - 1;
    assert forall q, g :: End(r, q, g) ==> End(s, q, g) && r.file[g] == s.file[g];
    assert forall q, g, h :: SameEnd(r, q, g, h) ==> SameEnd(s, q, g, h);
  }

  // ---- reserving a descriptor and a file (open, pipe) ----

  function Reserve(s: Tables, t: int, d: int, f: int): Tables
    requires Shape(s) && Slot(t, d) && 0 <= f < NR_FILE
  {
    SetFile(SetSlot(s, t, d, f), f,
      s.file[f].(count := s.file[f].count + 1, ready := false)).(pending := s.pending[t := s.pending[t] + {d}])
  }

  lemma ReserveKeeps(s: Tables, t: int, d: int, f: int)
    requires Inv(s) && Slot(t, d) && s.filp[t][d] == NONE && 0 <= f < NR_FILE && s.file[f].count == 0
    ensures Inv(Reserve(s, t, d, f))
  {
    var m := SetSlot(s, t, d, f);
    var r := Reserve(s, t, d, f);
    forall g | 0 <= g < NR_FILE
      ensures r.file[g].count == |Refs(r, g)|
    {
      RefsAfter(s, t, d, f, g);
      RefsFrame(m, r, g);
    }
    SameEnds(s, r);
    FreeFileUnnamed(s, f);
    assert !Unready(s, t, d);
    forall u, b | Slot(u, b)
      ensures (Unready(r, u, b) <==> b in r.pending[u]) && (Unready(r, u, b) ==> r.file[r.filp[u][b]].count == 1)
    {
      assert (u, b) != (t, d) ==> r.filp[u][b] == s.filp[u][b] != f;
      assert (u, b) != (t, d) ==> (Unready(r, u, b) <==> Unready(s, u, b));
    }
  }

  /** The error exit of sys_open: the slot and the count are cleared. */
  function Unreserve(s: Tables, t: int, d: int): Tables
    requires Shape(s) && Slot(t, d) && s.filp[t][d] != NONE
  {
    var f := s.filp[t][d];
    SetFile(SetSlot(s, t, d, NONE), f, s.file[f].(count := 0)).(pending := s.pending[t := s.pending[t] - {d}])
  }

  /** Clearing f_count outright is right because nobody else can have come to share
      a file that is still being opened. */
  lemma UnreserveKeeps(s: Tables, t: int, d: int)
    requires Inv(s) && Slot(t, d) && d in s.pending[t]
    ensures s.filp[t][d] != NONE && s.file[s.filp[t][d]].count == 1
    ensures Inv(Unreserve(s, t, d))
  {
    assert Unready(s, t, d);
    var f := s.filp[t][d];
    var m := SetSlot(s, t, d, NONE);
    var r := Unreserve(s, t, d);
    forall g | 0 <= g < NR_FILE
      ensures r.file[g].count == |Refs(r, g)|
    {
      RefsAfter(s, t, d, NONE, g);
      RefsFrame(m, r, g);
    }
    SameEnds(s, r);
    OnlyName(s, t, d);
    assert !Unready(r, t, d);
    forall u, b | Slot(u, b)
      ensures (Unready(r, u, b) <==> b in r.pending[u]) && (Unready(r, u, b) ==> r.file[r.filp[u][b]].count == 1)
    {
      assert (u, b) != (t, d) ==> r.filp[u][b] == s.filp[u][b] != f;
      assert (u, b) != (t, d) ==> (Unready(r, u, b) <==> Unready(s, u, b));
    }
  }

  /** A file with count 1 has one name. */
  lemma OnlyName(s: Tables, t: int, d: int)
    requires Shape(s) && CountsExact(s) && Slot(t, d) && s.filp[t][d] != NONE && s.file[s.filp[t][d]].count == 1
    ensures forall u, b :: Slot(u, b) && (u, b) != (t, d) ==> s.filp[u][b] != s.filp[t][d]
  {
    var f := s.filp[t][d];
    assert Names(s, t, d, f);
    assert (t, d) in Refs(s, f);
    assert |Refs(s, f) - {(t, d)}| == 0;
    forall u, b | Slot(u, b) && (u, b) != (t, d)
      ensures s.filp[u][b] != f
    {
      assert (u, b) !in Refs(s, f) - {(t, d)};
      assert (u, b) in Refs(s, f) <==> Names(s, u, b, f);
    }
  }

  // ---- the reserved file gets its inode ----

  function Publish(s: Tables, t: int, d: int, p: int, mode: int): Tables
    requires Shape(s) && Slot(t, d) && s.filp[t][d] != NONE
  {
    var f := s.filp[t][d];
    SetFile(s, f, File(1, true, p, mode)).(pending := s.pending[t := s.pending[t] - {d}])
  }

  lemma PublishTables(s: Tables, t: int, d: int, p: int, mode: int)
    requires Shape(s) && CountsExact(s) && PendingOk(s) && Slot(t, d) && d in s.pending[t]
    ensures s.filp[t][d] != NONE
    ensures var r := Publish(s, t, d, p, mode); Shape(r) && CountsExact(r) && PendingOk(r)
    ensures var r := Publish(s, t, d, p, mode); forall q ::
      Ends(r, q) == if q == p then Ends(s, q) + {s.filp[t][d]} else Ends(s, q)
    ensures s.filp[t][d] !in Ends(s, p)
  {
    assert Unready(s, t, d);
    var f := s.filp[t][d];
    var r := Publish(s, t, d, p, mode);
    forall g | 0 <= g < NR_FILE
      ensures r.file[g].count == |Refs(r, g)|
    {
      RefsFrame(s, r, g);
    }
    OnlyName(s, t, d);
    forall u, b | Slot(u, b)
      ensures (Unready(r, u, b) <==> b in r.pending[u]) && (Unready(r, u, b) ==> r.file[r.filp[u][b]].count == 1)
    {
      assert (u, b) != (t, d) ==> (Unready(r, u, b) <==> Unready(s, u, b));
    }
    assert forall q, g :: End(r, q, g) <==> (g == f && q == p) || (g != f && End(s, q, g));
    assert forall q :: f !in Ends(s, q);
  }

  /** sys_open's last lines: the inode comes from open_namei with one reference. */
  function Opened(s: Tables, t: int, d: int, p: int, mode: int): Tables
    requires Shape(s) && Slot(t, d) && s.filp[t][d] != NONE && 0 <= p < |s.inode|
  {
    Publish(s, t, d, p, mode).(inode := s.inode[p := s.inode[p].(count := s.inode[p].count + 1)])
  }

  lemma FrameInode(s: Tables, r: Tables)
    requires Shape(s) && r.filp == s.filp && r.pending == s.pending && r.file == s.file
    ensures Shape(r)
    ensures CountsExact(s) ==> CountsExact(r)
    ensures PendingOk(s) ==> PendingOk(r)
    ensures forall q :: Ends(r, q) == Ends(s, q)
  {
    forall g | 0 <= g < NR_FILE
      ensures Refs(r, g) == Refs(s, g)
    {
      RefsFrame(s, r, g);
    }
    assert forall u, b | Slot(u, b) :: Unready(r, u, b) <==> Unready(s, u, b);
    assert forall q, g :: End(r, q, g) <==> End(s, q, g);
  }

  lemma OpenedKeeps(s: Tables, t: int, d: int, p: int, mode: int)
    requires Inv(s) && Slot(t, d) && d in s.pending[t] && 0 <= p < |s.inode| && !s.inode[p].pipe
    ensures s.filp[t][d] != NONE
    ensures Inv(Opened(s, t, d, p, mode))
  {
    PublishTables(s, t, d, p, mode);
    var m := Publish(s, t, d, p, mode);
    var r := Opened(s, t, d, p, mode);
    FrameInode(m, r) by { hide Ends, InodesOk, TwoEnds; }
    OpenedEnds(s, r, s.filp[t][d], p) by { hide CountsExact, PendingOk; }
  }

  lemma OpenedEnds(s: Tables, r: Tables, f: int, p: int)
    requires InodesOk(s) && TwoEnds(s) && |r.file| == |s.file| && 0 <= p < |s.inode| && !s.inode[p].pipe
    requires r.inode == s.inode[p := s.inode[p].(count := s.inode[p].count + 1)]
    requires forall q :: Ends(r, q) == if q == p then Ends(s, q) + {f} else Ends(s, q)
    requires 0 <= f < |s.file| && r.file[f].inode == p
    requires f !in Ends(s, p) && (forall g :: 0 <= g < |s.file| && g != f ==> r.file[g] == s.file[g])
    ensures InodesOk(r) && TwoEnds(r)
  {
    forall q, g | End(r, q, g)
      ensures q == p || (End(s, q, g) && r.file[g] == s.file[g])
    {
      assert g in Ends(r, q);
    }
    assert forall q, g, h :: SameEnd(r, q, g, h) ==> SameEnd(s, q, g, h);
  }

  /** sys_pipe's last lines: a fresh inode counted 2, a read end and a write end. */
  function Piped(s: Tables, t: int, d0: int, d1: int, p: int): Tables
    requires Shape(s) && Slot(t, d0) && Slot(t, d1) && s.filp[t][d0] != NONE && s.filp[t][d1] != NONE
      && 0 <= p < |s.inode|
  {
    Publish(Publish(s, t, d0, p, 1), t, d1, p, 2).(inode := s.inode[p := Inode(true, 2, 0)])
  }

  lemma PipedKeeps(s: Tables, t: int, d0: int, d1: int, p: int)
    requires Inv(s) && Slot(t, d0) && Slot(t, d1) && d0 != d1 && d0 in s.pending[t] && d1 in s.pending[t]
    requires 0 <= p < |s.inode| && s.inode[p].count == 0
    ensures s.filp[t][d0] != NONE && s.filp[t][d1] != NONE
    ensures Inv(Piped(s, t, d0, d1, p))
    ensures HasEnd(Piped(s, t, d0, d1, p), p, 1) && HasEnd(Piped(s, t, d0, d1, p), p, 2)
  {
    hide InodesOk, TwoEnds, End;
    PublishTables(s, t, d0, p, 1);
    var m := Publish(s, t, d0, p, 1);
    PublishTables(m, t, d1, p, 2);
    var n := Publish(m, t, d1, p, 2);
    var r := Piped(s, t, d0, d1, p);
    FrameInode(n, r);
    var f, g := s.filp[t][d0], s.filp[t][d1];
    OnlyName(s, t, d0) by { assert Unready(s, t, d0); }
    NoEnds(s, p);
    assert Ends(r, p) == {f, g} && f != g;
    PipedInodes(s, r, f, g, p) by { hide CountsExact, PendingOk; }
    PipedEnds(s, r, f, g, p) by { hide CountsExact, PendingOk; }
    assert End(r, p, r.filp[t][d0]) && End(r, p, r.filp[t][d1]) by {
      assert f in Ends(r, p) && g in Ends(r, p);
    }
    assert HasEnd(r, p, 1) && HasEnd(r, p, 2) by {
      assert r.file[f].mode == 1 && r.file[g].mode == 2 && r.filp[t][d0] == f && r.filp[t][d1] == g;
    }
  }

  lemma NoEnds(s: Tables, p: int)
    requires InodesOk(s) && 0 <= p < |s.inode| && s.inode[p].count == 0
    ensures Ends(s, p) == {} && !s.inode[p].pipe
  {
  }

  lemma PipedInodes(s: Tables, r: Tables, f: int, g: int, p: int)
    requires InodesOk(s) && |r.file| == |s.file| && 0 <= p < |s.inode| && f != g
    requires 0 <= f < |s.file| && 0 <= g < |s.file| && r.file[f].inode == p && r.file[g].inode == p
    requires Ends(r, p) == {f, g} && (forall q :: q != p ==> Ends(r, q) == Ends(s, q))
    requires r.inode == s.inode[p := Inode(true, 2, 0)]
    requires forall h :: 0 <= h < |s.file| && h != f && h != g ==> r.file[h] == s.file[h]
    ensures InodesOk(r)
  {
    assert |{f, g}| == 2;
  }

  lemma PipedEnds(s: Tables, r: Tables, f: int, g: int, p: int)
    requires TwoEnds(s) && |r.file| == |s.file| && |r.inode| == |s.inode| && 0 <= p < |s.inode|
    requires Ends(r, p) == {f, g} && r.file[f].mode == 1 && r.file[g].mode == 2
    requires forall q :: 0 <= q < |s.inode| && q != p ==> r.inode[q] == s.inode[q]
    requires forall h :: 0 <= h < |s.file| && h != f && h != g ==> r.file[h] == s.file[h]
    requires r.file[f].inode == p && r.file[g].inode == p
    ensures TwoEnds(r)
  {
    forall q, h | End(r, q, h) && 0 <= q < |r.inode| && r.inode[q].pipe
      ensures if q == p then h in {f, g} else End(s, q, h) && h !in {f, g}
    {
      if q == p {
        assert h in Ends(r, p);
      }
    }
    forall q, h, k | SameEnd(r, q, h, k)
      ensures h == k
    {
      assert q != p ==> SameEnd(s, q, h, k);
    }
  }

  // ---- the other references to inodes ----

  /** iget by somebody who is not opening a file, and his iput. */
  function Hold(s: Tables, p: int, n: int): Tables
    requires 0 <= p < |s.inode| && s.inode[p].held + n >= 0 && s.inode[p].count + n >= 0
  {
    s.(inode := s.inode[p := Inode(s.inode[p].pipe, s.inode[p].count + n, s.inode[p].held + n)])
  }

  lemma HoldKeeps(s: Tables, p: int, n: int)
    requires Inv(s) && 0 <= p < |s.inode| && !s.inode[p].pipe && s.inode[p].held + n >= 0
    ensures s.inode[p].count + n >= 0
    ensures Inv(Hold(s, p, n))
  {
    hide CountsExact, PendingOk, Ends;
    var r := Hold(s, p, n);
    FrameInode(s, r);
    assert forall q, g, h :: SameEnd(r, q, g, h) ==> SameEnd(s, q, g, h);
  }

  // ---- fork ----

  /** The child's first k slots filled in, each named file counted once more. */
  function Forked(s: Tables, t: int, u: int, k: nat): (r: Tables)
    requires Shape(s) && 0 <= t < NR_TASKS && 0 <= u < NR_TASKS && t != u && k <= NR_OPEN
    ensures Shape(r) && r.filp == s.filp[u := s.filp[t][..k] + s.filp[u][k..]]
    ensures r.file == Counted(s.file, s.filp[t], k)
    ensures r.pending == s.pending && r.inode == s.inode
    decreases k
  {
    if k == 0 then
      assert s.filp[u] == s.filp[t][..0] + s.filp[u][0..];
      s
    else
      var m := Forked(s, t, u, k - 1);
      var f := s.filp[t][k - 1];
      assert (s.filp[t][..k - 1] + s.filp[u][k - 1..])[k - 1 := f] == s.filp[t][..k] + s.filp[u][k..];
      if f == NONE then SetSlot(m, u, k - 1, NONE) else Attach(m, u, k - 1, f)
  }

  /** The loop over the child's descriptors in copy_process. */
  function Counted(file: seq<File>, row: seq<int>, k: nat): (r: seq<File>)
    requires |file| == NR_FILE && |row| == NR_OPEN && k <= NR_OPEN
      && (forall d :: 0 <= d < NR_OPEN ==> NONE <= row[d] < NR_FILE)
    ensures |r| == NR_FILE
    ensures forall f :: 0 <= f < NR_FILE ==> r[f].ready == file[f].ready && r[f].count >= file[f].count
    decreases k
  {
    if k == 0 then file
    else
      var m := Counted(file, row, k - 1);
      if row[k - 1] == NONE then m else m[row[k - 1] := m[row[k - 1]].(count := m[row[k - 1]].count + 1)]
  }

  lemma OpenCounted(s: Tables, t: int, d: int)
    requires Inv(s) && Slot(t, d) && s.filp[t][d] != NONE && d !in s.pending[t]
    ensures s.file[s.filp[t][d]].count > 0 && s.file[s.filp[t][d]].ready
  {
    assert !Unready(s, t, d);
    assert Names(s, t, d, s.filp[t][d]);
    assert (t, d) in Refs(s, s.filp[t][d]);
  }

  lemma CountedKeeps(file: seq<File>, row: seq<int>, k: nat, f: int)
    requires |file| == NR_FILE && |row| == NR_OPEN && k <= NR_OPEN
      && (forall d :: 0 <= d < NR_OPEN ==> NONE <= row[d] < NR_FILE)
    requires 0 <= f < NR_FILE
    ensures Counted(file, row, k)[f].ready == file[f].ready && Counted(file, row, k)[f].count >= file[f].count
  {
  }

  lemma {:induction false} ForkKeeps(s: Tables, t: int, u: int, k: nat)
    requires Inv(s) && 0 <= t < NR_TASKS && 0 <= u < NR_TASKS && t != u && k <= NR_OPEN
    requires s.pending[t] == {} && (forall d :: 0 <= d < NR_OPEN ==> s.filp[u][d] == NONE)
    ensures Inv(Forked(s, t, u, k))
    decreases k
  {
    if k > 0 {
      ForkKeeps(s, t, u, k - 1);
      hide Inv;
      ForkStep(s, t, u, k - 1);
    }
  }

  lemma ForkStep(s: Tables, t: int, u: int, k: nat)
    requires Inv(s) && 0 <= t < NR_TASKS && 0 <= u < NR_TASKS && t != u && k < NR_OPEN
    requires s.pending[t] == {} && s.filp[u][k] == NONE
    requires Inv(Forked(s, t, u, k))
    ensures Inv(Forked(s, t, u, k + 1))
  {
    var m := Forked(s, t, u, k);
    var f := s.filp[t][k];
    assert m.filp[u][k] == NONE;
    assert Forked(s, t, u, k + 1) == if f == NONE then SetSlot(m, u, k, NONE) else Attach(m, u, k, f);
    hide CountsExact, PendingOk, InodesOk, TwoEnds, Forked, Counted;
    if f == NONE {
      SetNone(m, u, k);
    } else {
      OpenCounted(s, t, k);
      CountedKeeps(s.file, s.filp[t], k, f);
      AttachKeeps(m, u, k, f);
    }
  }

  lemma SetNone(m: Tables, u: int, k: int)
    requires 0 <= u < |m.filp| && 0 <= k < |m.filp[u]| && m.filp[u][k] == NONE
    ensures SetSlot(m, u, k, NONE) == m
  {
    assert m.filp[u][k := NONE] == m.filp[u];
    assert m.filp[u := m.filp[u]] == m.filp;
  }

  /** At boot every slot is empty and every count 0. */
  lemma BootInv(s: Tables)
    requires |s.filp| == |s.pending| == NR_TASKS && |s.file| == NR_FILE
    requires forall t :: 0 <= t < NR_TASKS ==> s.filp[t] == seq(NR_OPEN, _ => NONE) && s.pending[t] == {}
    requires forall f :: 0 <= f < NR_FILE ==> s.file[f] == File(0, false, 0, 0)
    requires forall p :: 0 <= p < |s.inode| ==> s.inode[p] == Inode(false, 0, 0)
    ensures Inv(s)
  {
    assert Shape(s);
    assert forall t, d, f :: Names(s, t, d, f) ==> f == NONE;
    assert forall f :: f != NONE ==> Refs(s, f) == {};
    assert forall p :: Ends(s, p) == {};
  }
}
