/** The elementary steps out of which fork, page faults, page sharing and exit
    are made.  Each keeps the invariant of PageModel and has a one-line effect on
    what user programs see. */
module PageSteps {
  import opened PageModel
  import opened Counting

  /** Two entries that map the same frame (or both nothing); the R/W and dirty
      bits may differ. */
  predicate SameFrame(e: Entry, f: Entry) {
    e.Present? == f.Present? && (e.Present? ==> e.frame == f.frame)
  }

  /** `r` maps what `m` maps everywhere except perhaps at (d, i). */
  ghost predicate SameElsewhere(m: Mem, r: Mem, d: int, i: int)
    requires Shape(m) && Shape(r)
  {
    forall a, b :: Visible(a, b) && !(a == d && b == i) ==> SameFrame(At(r, a, b), At(m, a, b))
  }

  /** Entries that only lost mappings keep their offsets. */
  lemma OffsetsSubset(m: Mem, r: Mem)
    requires Shape(m) && Shape(r) && SameOffset(m)
    requires forall d, i :: User(d, i) && At(r, d, i).Present? ==> SameFrame(At(r, d, i), At(m, d, i))
    ensures SameOffset(r)
  {
    forall d, i, e, j | Coincide(r, d, i, e, j)
      ensures d % DIRS_PER_TASK == e % DIRS_PER_TASK && i == j
    {
      assert Coincide(m, d, i, e, j);
    }
  }

  // ---- sharing one page (the body of both copy_page_tables and try_to_share) ----

  function Share(m: Mem, fd: int, td: int, i: int): (r: Mem)
    requires Shape(m) && 0 <= fd < NR_DIRS && 0 <= td < NR_DIRS && 0 <= i < ENTRIES
    requires m.dir[td].Table? && At(m, fd, i).Present? && At(m, fd, i).frame < FRAMES
    ensures Shape(r)
  {
    var e := At(m, fd, i).(writable := false);
    var m1 := SetEntry(m, td, i, e);
    if e.frame < LOW then m1 else SetCount(SetEntry(m1, fd, i, e), e.frame, Count(m, e.frame) + 1)
  }

  ghost predicate CanShare(m: Mem, fd: int, td: int, i: int) {
    && Shape(m) && Visible(fd, i) && User(td, i)
    && fd != td && fd % DIRS_PER_TASK == td % DIRS_PER_TASK
    && m.dir[td].Table? && At(m, fd, i).Present? && At(m, fd, i).frame < FRAMES && At(m, td, i) == Absent
  }

  ghost function ShareEntryAt(m: Mem, fd: int, td: int, i: int, a: int, b: int): Entry
    requires CanShare(m, fd, td, i) && Visible(a, b)
  {
    var e := At(m, fd, i).(writable := false);
    if b == i && (a == td || (a == fd && e.frame >= LOW)) then e else At(m, a, b)
  }

  lemma ShareAt(m: Mem, fd: int, td: int, i: int)
    requires CanShare(m, fd, td, i) && TablesApart(m) && FramesInRange(m)
    ensures var r := Share(m, fd, td, i);
      && TablesApart(r)
      && (forall a, b :: Visible(a, b) ==> At(r, a, b) == ShareEntryAt(m, fd, td, i, a, b))
  {
    var e := At(m, fd, i).(writable := false);
    var m1 := SetEntry(m, td, i, e);
    AtAfterSetEntry(m, td, i, e);
    if e.frame >= LOW {
      assert User(fd, i);
      AtAfterSetEntry(m1, fd, i, e);
    }
  }

  lemma ShareRefs(m: Mem, fd: int, td: int, i: int, f: int)
    requires CanShare(m, fd, td, i) && TablesApart(m) && FramesInRange(m)
    ensures var r := Share(m, fd, td, i);
      && TableRefs(r, f) == TableRefs(m, f)
      && |Refs(r, f)| == |Refs(m, f)| + (if At(m, fd, i).frame == f then 1 else 0)
  {
    var e := At(m, fd, i).(writable := false);
    var m1 := SetEntry(m, td, i, e);
    RefsAfterSetEntry(m, td, i, e, f);
    if e.frame >= LOW {
      assert User(fd, i);
      AtAfterSetEntry(m, td, i, e);
      assert Visible(fd, i);
      RefsAfterSetEntry(m1, fd, i, e, f);
      var m2 := SetEntry(m1, fd, i, e);
      SameTablesSameRefs(m2, SetCount(m2, e.frame, Count(m, e.frame) + 1), f);
    }
  }

  lemma SameTablesSameRefs(m: Mem, r: Mem, f: int)
    requires Shape(m) && Shape(r) && m.dir == r.dir && m.table == r.table
    ensures Refs(m, f) == Refs(r, f) && TableRefs(m, f) == TableRefs(r, f)
  {
  }

  lemma ShareExact(m: Mem, held: seq<nat>, fd: int, td: int, i: int)
    requires Inv(m, held) && CanShare(m, fd, td, i)
    ensures Exact(Share(m, fd, td, i), held)
  {
    var r := Share(m, fd, td, i);
    forall f | LOW <= f < FRAMES
      ensures Count(r, f) == |Refs(r, f)| + |TableRefs(r, f)| + Kept(held, f)
    {
      ShareRefs(m, fd, td, i, f);
    }
  }

  /** A frame some user entry maps is neither a page table nor held. */
  lemma UsedFrame(m: Mem, held: seq<nat>, d: int, i: int)
    requires Inv(m, held) && User(d, i) && At(m, d, i).Present? && LOW <= At(m, d, i).frame
    ensures var f := At(m, d, i).frame;
      && f < FRAMES && Kept(held, f) == 0
      && (forall e :: DIRS_PER_TASK <= e < NR_DIRS && m.dir[e].Table? ==> m.dir[e].frame != f)
      && 1 <= Count(m, f) == |Refs(m, f)|
      && (d, i) in Refs(m, f)
  {
    var f := At(m, d, i).frame;
    RefsMember(m, d, i, f);
    assert |Refs(m, f)| >= 1 by { assert Refs(m, f) != {}; }
    assert TableRefs(m, f) == {};
    assert forall e :: DIRS_PER_TASK <= e < NR_DIRS && m.dir[e].Table? && m.dir[e].frame == f ==> e in TableRefs(m, f);
  }

  lemma ShareExclusive(m: Mem, held: seq<nat>, fd: int, td: int, i: int)
    requires Inv(m, held) && CanShare(m, fd, td, i)
    ensures Exclusive(Share(m, fd, td, i), held)
  {
    if At(m, fd, i).frame >= LOW {
      UsedFrame(m, held, fd, i);
    }
  }

  lemma ShareOffsets(m: Mem, held: seq<nat>, fd: int, td: int, i: int)
    requires Inv(m, held) && CanShare(m, fd, td, i)
    ensures FramesInRange(Share(m, fd, td, i)) && SameOffset(Share(m, fd, td, i))
  {
    ShareAt(m, fd, td, i);
    var r := Share(m, fd, td, i);
    forall d, a, e, b | Coincide(r, d, a, e, b)
      ensures d % DIRS_PER_TASK == e % DIRS_PER_TASK && a == b
    {
      assert Visible(d, a) && Visible(e, b);
      assert Coincide(m, if d == td && a == i then fd else d, a, if e == td && b == i then fd else e, b);
    }
  }

  lemma ShareProtects(m: Mem, held: seq<nat>, fd: int, td: int, i: int)
    requires Inv(m, held) && CanShare(m, fd, td, i)
    ensures FramesInRange(Share(m, fd, td, i)) && Protected(Share(m, fd, td, i))
  {
    var r := Share(m, fd, td, i);
    var g := At(m, fd, i).frame;
    ShareAt(m, fd, td, i);
    forall d, b | User(d, b) && At(r, d, b).Present? && At(r, d, b).writable
      ensures LOW <= At(r, d, b).frame && Count(r, At(r, d, b).frame) == 1
    {
      assert Visible(d, b);
      assert At(r, d, b) == At(m, d, b);
      if At(m, d, b).frame == g {
        UsedFrame(m, held, d, b);
        SoleUse(m, held, d, b);
        RefsMember(m, fd, i, g);
        assert false;
      }
    }
  }

  /** A count of one means a single entry. */
  lemma SoleUse(m: Mem, held: seq<nat>, d: int, i: int)
    requires Inv(m, held) && User(d, i) && At(m, d, i).Present? && LOW <= At(m, d, i).frame < FRAMES
    requires Count(m, At(m, d, i).frame) == 1
    ensures Refs(m, At(m, d, i).frame) == {(d, i)}
  {
    var f := At(m, d, i).frame;
    UsedFrame(m, held, d, i);
    assert |Refs(m, f) - {(d, i)}| == 0;
  }

  /** Sharing write-protects both sides, counts the new use, and gives the
      receiver exactly the page the giver sees. */
  lemma ShareKeeps(m: Mem, held: seq<nat>, fd: int, td: int, i: int)
    requires Inv(m, held) && CanShare(m, fd, td, i)
    ensures Inv(Share(m, fd, td, i), held)
    ensures SameElsewhere(m, Share(m, fd, td, i), td, i)
    ensures Seen(m, fd, i) && ViewOf(Share(m, fd, td, i)) == ViewOf(m)[(td, i) := PageAt(m, fd, i)]
  {
    ShareAt(m, fd, td, i);
    ShareExact(m, held, fd, td, i);
    ShareExclusive(m, held, fd, td, i);
    ShareOffsets(m, held, fd, td, i);
    ShareProtects(m, held, fd, td, i);
    ShareView(m, fd, td, i);
  }

  lemma ShareView(m: Mem, fd: int, td: int, i: int)
    requires CanShare(m, fd, td, i) && TablesApart(m) && FramesInRange(m)
    ensures Seen(m, fd, i) && ViewOf(Share(m, fd, td, i)) == ViewOf(m)[(td, i) := PageAt(m, fd, i)]
  {
    var r := Share(m, fd, td, i);
    ShareAt(m, fd, td, i);
    assert r.data == m.data;
    ViewByEntries(m, r, td, i);
  }

  /** If all entries but (d, i) map the same frames and contents did not change,
      the views agree except at (d, i). */
  lemma ViewByEntries(m: Mem, r: Mem, d: int, i: int)
    requires Shape(m) && Shape(r) && m.data == r.data && (Visible(d, i) || d == -1)
    requires SameElsewhere(m, r, d, i)
    ensures ViewOf(r) == if d != -1 && Seen(r, d, i) then ViewOf(m)[(d, i) := PageAt(r, d, i)] else ViewOf(m) - {(d, i)}
  {
    assert d == -1 ==> !Seen(r, d, i);
    hide ViewOf, Seen, PageAt;
    forall q: (int, int) | q != (d, i)
      ensures AgreeAt(ViewOf(m), ViewOf(r), q)
    {
      ViewAt(m, q);
      ViewAt(r, q);
      SeenSame(m, r, q.0, q.1, d, i);
    }
    ViewAt(r, (d, i));
    OneKey(ViewOf(m), ViewOf(r), (d, i));
  }

  ghost predicate AgreeAt(a: View, b: View, q: (int, int)) {
    (q in a <==> q in b) && (q in a ==> a[q] == b[q])
  }

  lemma ViewAt(m: Mem, q: (int, int))
    requires Shape(m)
    ensures q in ViewOf(m) <==> Seen(m, q.0, q.1)
    ensures q in ViewOf(m) ==> ViewOf(m)[q] == PageAt(m, q.0, q.1)
  {
    assert q == (q.0, q.1);
  }

  lemma SeenSame(m: Mem, r: Mem, a: int, b: int, d: int, i: int)
    requires Shape(m) && Shape(r) && m.data == r.data && SameElsewhere(m, r, d, i) && !(a == d && b == i)
    ensures Seen(r, a, b) <==> Seen(m, a, b)
    ensures Seen(m, a, b) ==> PageAt(r, a, b) == PageAt(m, a, b)
  {
    assert Visible(a, b) ==> SameFrame(At(r, a, b), At(m, a, b));
  }

  lemma OneKey(a: View, b: View, k: (int, int))
    requires forall q :: q != k ==> AgreeAt(a, b, q)
    ensures b == if k in b then a[k := b[k]] else a - {k}
  {
    var c := if k in b then a[k := b[k]] else a - {k};
    forall q
      ensures q in b <==> q in c
      ensures q in b ==> b[q] == c[q]
    {
      assert q != k ==> AgreeAt(a, b, q);
    }
  }

  // ---- taking a free frame: get_free_page ----

  predicate FreeFrame(m: Mem, f: int)
    requires Shape(m)
  {
    LOW <= f < FRAMES && Count(m, f) == 0
  }

  function Take(m: Mem, f: int): (r: Mem)
    requires Shape(m) && FreeFrame(m, f)
    ensures Shape(r)
  {
    Mem(m.count[f - LOW := 1], m.dir, m.table[f := EmptyTable()], m.data[f := ZeroPage()])
  }

  function Hold(held: seq<nat>, f: int): (r: seq<nat>)
    requires |held| == PAGING_PAGES && LOW <= f < FRAMES
    ensures |r| == PAGING_PAGES
  {
    held[f - LOW := Kept(held, f) + 1]
  }

  function Unhold(held: seq<nat>, f: int): (r: seq<nat>)
    requires |held| == PAGING_PAGES && LOW <= f < FRAMES && Kept(held, f) > 0
    ensures |r| == PAGING_PAGES
  {
    held[f - LOW := Kept(held, f) - 1]
  }

  /** A frame with no user of any kind. */
  ghost predicate Unused(m: Mem, f: int)
    requires Shape(m)
  {
    && LOW <= f < FRAMES
    && (forall d :: DIRS_PER_TASK <= d < NR_DIRS && m.dir[d].Table? ==> m.dir[d].frame != f)
    && (forall d, i :: User(d, i) && At(m, d, i).Present? ==> At(m, d, i).frame != f)
  }

  lemma NoRefs(m: Mem, held: seq<nat>, f: int)
    requires Inv(m, held) && LOW <= f < FRAMES && Count(m, f) == Kept(held, f)
    ensures Unused(m, f) && Refs(m, f) == {} && TableRefs(m, f) == {}
  {
    assert Refs(m, f) == {} && TableRefs(m, f) == {};
    forall d, i | User(d, i) && At(m, d, i).Present?
      ensures At(m, d, i).frame != f
    {
      RefsMember(m, d, i, f);
    }
    forall d | DIRS_PER_TASK <= d < NR_DIRS && m.dir[d].Table?
      ensures m.dir[d].frame != f
    {
      assert d !in TableRefs(m, f);
    }
  }

  ghost predicate SameEntries(m: Mem, r: Mem)
    requires Shape(m) && Shape(r)
  {
    forall d, i :: Visible(d, i) ==> At(r, d, i) == At(m, d, i)
  }

  /** If no entry changed, only the counts remain to be checked. */
  lemma CarryOver(m: Mem, held: seq<nat>, r: Mem, h: seq<nat>)
    requires Inv(m, held) && Shape(r) && |h| == PAGING_PAGES && SameEntries(m, r)
    requires TablesApart(r) && Exact(r, h) && Exclusive(r, h)
    requires forall f :: LOW <= f < FRAMES && !Unused(m, f) ==> Count(r, f) == Count(m, f) || !Mapped(m, f)
    ensures Inv(r, h) && SameElsewhere(m, r, -1, -1)
  {
    assert forall d, i :: User(d, i) ==> Visible(d, i) && At(r, d, i) == At(m, d, i);
    assert FramesInRange(r);
    OffsetsSubset(m, r);
    forall d, i | User(d, i) && At(r, d, i).Present? && At(r, d, i).writable
      ensures LOW <= At(r, d, i).frame && Count(r, At(r, d, i).frame) == 1
    {
      var f := At(m, d, i).frame;
      assert Maps(m, d, i, f);
      assert Mapped(m, f) && !Unused(m, f);
    }
  }

  ghost predicate Mapped(m: Mem, f: int)
    requires Shape(m)
  {
    exists d, i :: Maps(m, d, i, f)
  }

  lemma SameEntriesSameRefs(m: Mem, r: Mem, g: int)
    requires Shape(m) && Shape(r) && SameEntries(m, r)
    ensures Refs(r, g) == Refs(m, g)
  {
    forall p: (int, int)
      ensures p in Refs(r, g) <==> p in Refs(m, g)
    {
      RefsMember(m, p.0, p.1, g);
      RefsMember(r, p.0, p.1, g);
      assert User(p.0, p.1) ==> Visible(p.0, p.1);
    }
  }

  lemma SameEntriesSameView(m: Mem, r: Mem, f: int)
    requires Shape(m) && Shape(r) && SameEntries(m, r)
    requires forall g :: 0 <= g < FRAMES && g != f ==> r.data[g] == m.data[g]
    requires forall d, i :: Seen(m, d, i) ==> At(m, d, i).frame != f
    ensures ViewOf(r) == ViewOf(m)
  {
    assert forall d, i :: Seen(r, d, i) <==> Seen(m, d, i);
    assert forall d, i :: Seen(m, d, i) ==> PageAt(r, d, i) == PageAt(m, d, i);
  }

  lemma TakeAt(m: Mem, f: int)
    requires Shape(m) && TablesApart(m) && FramesInRange(m) && FreeFrame(m, f) && Unused(m, f)
    ensures var r := Take(m, f);
      && TablesApart(r)
      && (forall d, i :: Visible(d, i) ==> At(r, d, i) == At(m, d, i))
      && ViewOf(r) == ViewOf(m)
  {
    var r := Take(m, f);
    assert SameEntries(m, r);
    SameEntriesSameView(m, r, f);
  }

  /** A page fresh from get_free_page is zero, was used by nobody, and nobody sees a change. */
  lemma TakeKeeps(m: Mem, held: seq<nat>, f: int)
    requires Inv(m, held) && FreeFrame(m, f)
    ensures Inv(Take(m, f), Hold(held, f)) && ViewOf(Take(m, f)) == ViewOf(m)
    ensures Count(Take(m, f), f) == 1 == Kept(Hold(held, f), f)
    ensures SameElsewhere(m, Take(m, f), -1, -1)
  {
    NoRefs(m, held, f);
    TakeAt(m, f);
    var r, h := Take(m, f), Hold(held, f);
    forall g | LOW <= g < FRAMES
      ensures Count(r, g) == |Refs(r, g)| + |TableRefs(r, g)| + Kept(h, g)
      ensures g != f ==> Count(r, g) == Count(m, g) && Kept(h, g) == Kept(held, g)
    {
      SameEntriesSameRefs(m, r, g);
      assert TableRefs(r, g) == TableRefs(m, g);
      assert g != f ==> Count(r, g) == Count(m, g) && Kept(h, g) == Kept(held, g);
    }
    assert Exclusive(r, h);
    CarryOver(m, held, r, h);
  }

  // ---- using a held frame as a page table ----

  function Install(m: Mem, d: int, f: int): (r: Mem)
    requires Shape(m) && 0 <= d < NR_DIRS && 0 <= f < FRAMES
    ensures Shape(r)
  {
    m.(dir := m.dir[d := Table(f)])
  }

  lemma InstallRefs(m: Mem, d: int, f: int, g: int)
    requires Shape(m) && DIRS_PER_TASK <= d < NR_DIRS && m.dir[d] == NoTable && LOW <= f < FRAMES
    requires m.table[f] == EmptyTable()
    ensures var r := Install(m, d, f);
      && Refs(r, g) == Refs(m, g)
      && TableRefs(r, g) == (if g == f then TableRefs(m, g) + {d} else TableRefs(m, g))
      && d !in TableRefs(m, g)
  {
    var r := Install(m, d, f);
    assert forall a, b :: User(a, b) ==> At(r, a, b) == At(m, a, b);
    assert forall a, b :: Maps(r, a, b, g) == Maps(m, a, b, g);
  }

  lemma InstallKeeps(m: Mem, held: seq<nat>, d: int, f: int)
    requires Inv(m, held) && DIRS_PER_TASK <= d < NR_DIRS && m.dir[d] == NoTable && LOW <= f < FRAMES
    requires m.table[f] == EmptyTable() && Count(m, f) == 1 == Kept(held, f)
    ensures Inv(Install(m, d, f), Unhold(held, f)) && ViewOf(Install(m, d, f)) == ViewOf(m)
    ensures SameElsewhere(m, Install(m, d, f), -1, -1)
    ensures forall i :: 0 <= i < ENTRIES ==> At(Install(m, d, f), d, i) == Absent
  {
    NoRefs(m, held, f);
    var r, h := Install(m, d, f), Unhold(held, f);
    assert SameEntries(m, r);
    forall g | LOW <= g < FRAMES
      ensures Count(r, g) == |Refs(r, g)| + |TableRefs(r, g)| + Kept(h, g)
    {
      InstallRefs(m, d, f, g);
      assert Count(r, g) == Count(m, g);
    }
    assert forall g :: LOW <= g < FRAMES ==> Count(r, g) == Count(m, g) && (g != f ==> Kept(h, g) == Kept(held, g));
    assert Exclusive(r, h);
    CarryOver(m, held, r, h);
    SameEntriesSameView(m, r, -1);
  }

  // ---- mapping a held frame: put_page ----

  function MapHeld(m: Mem, d: int, i: int, f: int): (r: Mem)
    requires Shape(m) && User(d, i) && m.dir[d].Table? && 0 <= f < FRAMES
    ensures Shape(r)
  {
    SetEntry(m, d, i, Present(f, true, false))
  }

  lemma MapHeldExact(m: Mem, held: seq<nat>, d: int, i: int, f: int)
    requires Inv(m, held) && User(d, i) && m.dir[d].Table? && At(m, d, i) == Absent
    requires LOW <= f < FRAMES && Count(m, f) == 1 == Kept(held, f)
    ensures Exact(MapHeld(m, d, i, f), Unhold(held, f)) && Exclusive(MapHeld(m, d, i, f), Unhold(held, f))
  {
    NoRefs(m, held, f);
    var r, h := MapHeld(m, d, i, f), Unhold(held, f);
    forall g | LOW <= g < FRAMES
      ensures Count(r, g) == |Refs(r, g)| + |TableRefs(r, g)| + Kept(h, g)
    {
      RefsAfterSetEntry(m, d, i, Present(f, true, false), g);
      assert Count(r, g) == Count(m, g);
    }
    assert forall g :: LOW <= g < FRAMES && g != f ==> Kept(h, g) == Kept(held, g);
  }

  lemma MapHeldKeeps(m: Mem, held: seq<nat>, d: int, i: int, f: int)
    requires Inv(m, held) && User(d, i) && m.dir[d].Table? && At(m, d, i) == Absent
    requires LOW <= f < FRAMES && Count(m, f) == 1 == Kept(held, f)
    ensures Inv(MapHeld(m, d, i, f), Unhold(held, f))
    ensures ViewOf(MapHeld(m, d, i, f)) == ViewOf(m)[(d, i) := m.data[f]]
    ensures SameElsewhere(m, MapHeld(m, d, i, f), d, i)
  {
    NoRefs(m, held, f);
    var r := MapHeld(m, d, i, f);
    AtAfterSetEntry(m, d, i, Present(f, true, false));
    MapHeldExact(m, held, d, i, f);
    assert Visible(d, i);
    assert SameElsewhere(m, r, d, i);
    ViewByEntries(m, r, d, i);
    assert forall a, b :: User(a, b) ==> Visible(a, b);
    MapHeldOffsets(m, d, i, f);
  }

  lemma MapHeldOffsets(m: Mem, d: int, i: int, f: int)
    requires Shape(m) && TablesApart(m) && SameOffset(m) && User(d, i) && m.dir[d].Table? && Unused(m, f)
    ensures SameOffset(MapHeld(m, d, i, f))
  {
    var r := MapHeld(m, d, i, f);
    AtAfterSetEntry(m, d, i, Present(f, true, false));
    forall a, b, e, j | Coincide(r, a, b, e, j)
      ensures a % DIRS_PER_TASK == e % DIRS_PER_TASK && b == j
    {
      assert Visible(a, b) && Visible(e, j);
      assert (a == d && b == i && e == d && j == i) || Coincide(m, a, b, e, j);
    }
  }

  // ---- dropping an entry, dropping a table: free_page_tables ----

  function Drop(m: Mem, d: int, i: int): (r: Mem)
    requires Shape(m) && User(d, i) && m.dir[d].Table? && At(m, d, i).Present? && At(m, d, i).frame < FRAMES
    requires At(m, d, i).frame >= LOW ==> Count(m, At(m, d, i).frame) > 0
    ensures Shape(r)
  {
    var f := At(m, d, i).frame;
    var m1 := SetEntry(m, d, i, Absent);
    if f < LOW then m1 else SetCount(m1, f, Count(m, f) - 1)
  }

  lemma DropExact(m: Mem, held: seq<nat>, d: int, i: int)
    requires Inv(m, held) && User(d, i) && m.dir[d].Table? && At(m, d, i).Present?
    requires At(m, d, i).frame >= LOW ==> Count(m, At(m, d, i).frame) > 0
    ensures Exact(Drop(m, d, i), held) && Exclusive(Drop(m, d, i), held)
  {
    var r := Drop(m, d, i);
    var m1 := SetEntry(m, d, i, Absent);
    var f := At(m, d, i).frame;
    if f >= LOW {
      UsedFrame(m, held, d, i);
    }
    forall g | LOW <= g < FRAMES
      ensures Count(r, g) == |Refs(r, g)| + |TableRefs(r, g)| + Kept(held, g)
    {
      RefsAfterSetEntry(m, d, i, Absent, g);
      SameTablesSameRefs(m1, r, g);
      assert Count(r, g) == Count(m, g) - if g == f then 1 else 0;
    }
  }

  lemma DropKeeps(m: Mem, held: seq<nat>, d: int, i: int)
    requires Inv(m, held) && User(d, i) && At(m, d, i).Present?
    ensures At(m, d, i).frame >= LOW ==> Count(m, At(m, d, i).frame) > 0
    ensures Inv(Drop(m, d, i), held)
    ensures ViewOf(Drop(m, d, i)) == ViewOf(m) - {(d, i)}
    ensures SameElsewhere(m, Drop(m, d, i), d, i) && At(Drop(m, d, i), d, i) == Absent
  {
    var f := At(m, d, i).frame;
    if f >= LOW {
      UsedFrame(m, held, d, i);
    }
    var r := Drop(m, d, i);
    AtAfterSetEntry(m, d, i, Absent);
    DropExact(m, held, d, i);
    assert Visible(d, i);
    assert forall a, b :: Visible(a, b) ==> At(r, a, b) == if a == d && b == i then Absent else At(m, a, b);
    ViewByEntries(m, r, d, i);
    assert forall a, b :: User(a, b) ==> Visible(a, b);
    OffsetsSubset(m, r);
    DropProtected(m, held, d, i);
  }

  lemma DropProtected(m: Mem, held: seq<nat>, d: int, i: int)
    requires Inv(m, held) && User(d, i) && At(m, d, i).Present?
    requires At(m, d, i).frame >= LOW ==> Count(m, At(m, d, i).frame) > 0
    ensures FramesInRange(Drop(m, d, i)) && Protected(Drop(m, d, i))
  {
    var r := Drop(m, d, i);
    var f := At(m, d, i).frame;
    AtAfterSetEntry(m, d, i, Absent);
    assert forall a, b :: Visible(a, b) ==> At(r, a, b) == if a == d && b == i then Absent else At(m, a, b);
    forall a, b | User(a, b) && At(r, a, b).Present? && At(r, a, b).writable
      ensures LOW <= At(r, a, b).frame && Count(r, At(r, a, b).frame) == 1
    {
      assert Visible(a, b);
      if At(m, a, b).frame == f {
        SoleUse(m, held, a, b);
        RefsMember(m, d, i, f);
        assert false;
      }
    }
  }

  function DropTable(m: Mem, d: int): (r: Mem)
    requires Shape(m) && 0 <= d < NR_DIRS && m.dir[d].Table? && LOW <= m.dir[d].frame && Count(m, m.dir[d].frame) > 0
    ensures Shape(r)
  {
    var f := m.dir[d].frame;
    Mem(m.count[f - LOW := Count(m, f) - 1], m.dir[d := NoTable], m.table, m.data)
  }

  lemma DropTableRefs(m: Mem, d: int, g: int)
    requires Shape(m) && DIRS_PER_TASK <= d < NR_DIRS && m.dir[d].Table? && LOW <= m.dir[d].frame
    requires Count(m, m.dir[d].frame) > 0
    requires forall i :: 0 <= i < ENTRIES ==> At(m, d, i) == Absent
    ensures var r := DropTable(m, d);
      && Refs(r, g) == Refs(m, g)
      && TableRefs(r, g) == TableRefs(m, g) - {d}
      && (d in TableRefs(m, g) <==> m.dir[d].frame == g)
  {
    var r := DropTable(m, d);
    assert forall a, b :: User(a, b) ==> At(r, a, b) == At(m, a, b);
    assert forall a, b :: Maps(r, a, b, g) == Maps(m, a, b, g);
  }

  lemma DropTableKeeps(m: Mem, held: seq<nat>, d: int)
    requires Inv(m, held) && DIRS_PER_TASK <= d < NR_DIRS && m.dir[d].Table?
    requires forall i :: 0 <= i < ENTRIES ==> At(m, d, i) == Absent
    ensures Inv(DropTable(m, d), held) && ViewOf(DropTable(m, d)) == ViewOf(m)
    ensures SameElsewhere(m, DropTable(m, d), -1, -1)
  {
    var r := DropTable(m, d);
    var f := m.dir[d].frame;
    assert SameEntries(m, r);
    TableIsNotHeld(m, held, d);
    DropTableExact(m, held, d);
    CarryOver(m, held, r, held);
    SameEntriesSameView(m, r, -1);
  }

  lemma DropTableExact(m: Mem, held: seq<nat>, d: int)
    requires Inv(m, held) && DIRS_PER_TASK <= d < NR_DIRS && m.dir[d].Table?
    requires forall i :: 0 <= i < ENTRIES ==> At(m, d, i) == Absent
    ensures Exact(DropTable(m, d), held) && Exclusive(DropTable(m, d), held)
    ensures forall g :: LOW <= g < FRAMES && g != m.dir[d].frame ==> Count(DropTable(m, d), g) == Count(m, g)
  {
    var r := DropTable(m, d);
    forall g | LOW <= g < FRAMES
      ensures Count(r, g) == |Refs(r, g)| + |TableRefs(r, g)| + Kept(held, g)
      ensures Count(r, g) == Count(m, g) - if g == m.dir[d].frame then 1 else 0
    {
      DropTableRefs(m, d, g);
      assert Count(r, g) == Count(m, g) - if g == m.dir[d].frame then 1 else 0;
    }
    TableIsNotHeld(m, held, d);
  }

  lemma TableIsNotHeld(m: Mem, held: seq<nat>, d: int)
    requires Inv(m, held) && DIRS_PER_TASK <= d < NR_DIRS && m.dir[d].Table?
    ensures Kept(held, m.dir[d].frame) == 0
    ensures forall a, b :: User(a, b) && At(m, a, b).Present? ==> At(m, a, b).frame != m.dir[d].frame
  {
    var f := m.dir[d].frame;
    assert d in TableRefs(m, f);
    assert |TableRefs(m, f)| >= 1;
    assert Refs(m, f) == {};
    forall a, b | User(a, b) && At(m, a, b).Present?
      ensures At(m, a, b).frame != f
    {
      RefsMember(m, a, b, f);
    }
  }

  // ---- the write bit, and the write itself ----

  /** Changing only the flag bits of an entry, under the rule of Protected. */
  lemma FlagsKeep(m: Mem, held: seq<nat>, d: int, i: int, e: Entry)
    requires Inv(m, held) && User(d, i) && At(m, d, i).Present? && SameFrame(e, At(m, d, i))
    requires e.writable ==> LOW <= e.frame < FRAMES && Count(m, e.frame) == 1
    ensures Inv(SetEntry(m, d, i, e), held) && ViewOf(SetEntry(m, d, i, e)) == ViewOf(m)
    ensures SameElsewhere(m, SetEntry(m, d, i, e), -1, -1)
  {
    var r := SetEntry(m, d, i, e);
    AtAfterSetEntry(m, d, i, e);
    FlagsExact(m, held, d, i, e);
    assert SameElsewhere(m, r, -1, -1);
    ViewByEntries(m, r, -1, -1);
    assert forall a, b :: User(a, b) ==> Visible(a, b) && SameFrame(At(r, a, b), At(m, a, b));
    assert FramesInRange(r);
    OffsetsSubset(m, r);
    assert forall g :: LOW <= g < FRAMES ==> Count(r, g) == Count(m, g);
  }

  lemma FlagsExact(m: Mem, held: seq<nat>, d: int, i: int, e: Entry)
    requires Inv(m, held) && User(d, i) && At(m, d, i).Present? && SameFrame(e, At(m, d, i))
    ensures Exact(SetEntry(m, d, i, e), held) && Exclusive(SetEntry(m, d, i, e), held)
  {
    var r := SetEntry(m, d, i, e);
    forall g | LOW <= g < FRAMES
      ensures Count(r, g) == |Refs(r, g)| + |TableRefs(r, g)| + Kept(held, g)
    {
      RefsAfterSetEntry(m, d, i, e, g);
      assert Count(r, g) == Count(m, g);
    }
  }

  function SetData(m: Mem, f: int, p: Page): (r: Mem)
    requires Shape(m) && 0 <= f < FRAMES
    ensures Shape(r)
  {
    m.(data := m.data[f := p])
  }

  lemma SoleSeer(m: Mem, held: seq<nat>, d: int, i: int, a: int, b: int)
    requires Inv(m, held) && User(d, i) && At(m, d, i).Present? && At(m, d, i).writable
    requires Seen(m, a, b) && At(m, a, b).frame == At(m, d, i).frame
    ensures a == d && b == i
  {
    var f := At(m, d, i).frame;
    SoleUse(m, held, d, i);
    RefsMember(m, a, b, f);
    assert (a, b) in Refs(m, f);
  }

  lemma StoreView(m: Mem, d: int, i: int, p: Page)
    requires Shape(m) && Seen(m, d, i)
    requires forall a, b :: Seen(m, a, b) && At(m, a, b).frame == At(m, d, i).frame ==> a == d && b == i
    ensures ViewOf(SetData(m, At(m, d, i).frame, p)) == ViewOf(m)[(d, i) := p]
  {
    var r := SetData(m, At(m, d, i).frame, p);
    assert forall a, b :: Seen(r, a, b) <==> Seen(m, a, b);
    assert forall a, b :: Seen(m, a, b) ==> PageAt(r, a, b) == if a == d && b == i then p else PageAt(m, a, b);
  }

  /** A store through a writable entry changes one page of one task. */
  lemma StoreKeeps(m: Mem, held: seq<nat>, d: int, i: int, p: Page)
    requires Inv(m, held) && User(d, i) && At(m, d, i).Present? && At(m, d, i).writable
    ensures Inv(SetData(m, At(m, d, i).frame, p), held)
    ensures ViewOf(SetData(m, At(m, d, i).frame, p)) == ViewOf(m)[(d, i) := p]
  {
    DataKeeps(m, held, At(m, d, i).frame, p);
    forall a, b | Seen(m, a, b) && At(m, a, b).frame == At(m, d, i).frame
      ensures a == d && b == i
    {
      SoleSeer(m, held, d, i, a, b);
    }
    assert Visible(d, i);
    StoreView(m, d, i, p);
  }

  lemma DataKeeps(m: Mem, held: seq<nat>, f: int, p: Page)
    requires Inv(m, held) && 0 <= f < FRAMES
    ensures Inv(SetData(m, f, p), held)
    ensures SameElsewhere(m, SetData(m, f, p), -1, -1)
  {
    var r := SetData(m, f, p);
    forall g | LOW <= g < FRAMES
      ensures Count(r, g) == |Refs(r, g)| + |TableRefs(r, g)| + Kept(held, g)
    {
      SameTablesSameRefs(m, r, g);
      assert Count(r, g) == Count(m, g);
    }
    assert forall d, i :: Visible(d, i) ==> At(r, d, i) == At(m, d, i);
    OffsetsSubset(m, r);
  }

  /** Filling a held page is invisible to user programs. */
  lemma FillHeldKeeps(m: Mem, held: seq<nat>, f: int, p: Page)
    requires Inv(m, held) && LOW <= f < FRAMES && Count(m, f) == Kept(held, f)
    ensures Inv(SetData(m, f, p), held) && ViewOf(SetData(m, f, p)) == ViewOf(m)
    ensures SameElsewhere(m, SetData(m, f, p), -1, -1)
  {
    NoRefs(m, held, f);
    DataKeeps(m, held, f, p);
    var r := SetData(m, f, p);
    SameEntriesSameView(m, r, f);
  }

  // ---- giving a held page back ----

  lemma GiveBackKeeps(m: Mem, held: seq<nat>, f: int)
    requires Inv(m, held) && LOW <= f < FRAMES && Kept(held, f) > 0
    ensures Count(m, f) > 0
    ensures Inv(SetCount(m, f, Count(m, f) - 1), Unhold(held, f))
    ensures ViewOf(SetCount(m, f, Count(m, f) - 1)) == ViewOf(m)
    ensures SameElsewhere(m, SetCount(m, f, Count(m, f) - 1), -1, -1)
  {
    var r, h := SetCount(m, f, Count(m, f) - 1), Unhold(held, f);
    NoRefs(m, held, f);
    assert SameEntries(m, r);
    forall g | LOW <= g < FRAMES
      ensures Count(r, g) == |Refs(r, g)| + |TableRefs(r, g)| + Kept(h, g)
      ensures g != f ==> Count(r, g) == Count(m, g) && Kept(h, g) == Kept(held, g)
    {
      SameTablesSameRefs(m, r, g);
      assert g != f ==> Count(r, g) == Count(m, g) && Kept(h, g) == Kept(held, g);
    }
    assert Exclusive(r, h);
    CarryOver(m, held, r, h);
    SameEntriesSameView(m, r, -1);
  }

  // ---- the copy made by un_wp_page ----

  function CopyOut(m: Mem, d: int, i: int, f: int): (r: Mem)
    requires Shape(m) && User(d, i) && m.dir[d].Table? && At(m, d, i).Present? && At(m, d, i).frame < FRAMES
    requires At(m, d, i).frame >= LOW ==> Count(m, At(m, d, i).frame) > 0
    requires LOW <= f < FRAMES
    ensures Shape(r)
  {
    var g := At(m, d, i).frame;
    var m1 := if g >= LOW then SetCount(m, g, Count(m, g) - 1) else m;
    SetData(SetEntry(m1, d, i, Present(f, true, false)), f, m.data[g])
  }

  lemma CopyOutKeeps(m: Mem, held: seq<nat>, d: int, i: int, f: int)
    requires Inv(m, held) && User(d, i) && At(m, d, i).Present?
    requires LOW <= f < FRAMES && Count(m, f) == 1 == Kept(held, f)
    ensures At(m, d, i).frame >= LOW ==> Count(m, At(m, d, i).frame) > 0
    ensures Inv(CopyOut(m, d, i, f), Unhold(held, f))
    ensures ViewOf(CopyOut(m, d, i, f)) == ViewOf(m)
  {
    var g := At(m, d, i).frame;
    if g >= LOW {
      UsedFrame(m, held, d, i);
    }
    var m1 := SetData(m, f, m.data[g]);
    FillHeldKeeps(m, held, f, m.data[g]);
    hide PageModel.Exact, PageModel.Exclusive, PageModel.SameOffset, PageModel.Protected, PageModel.ViewOf;
    Remap(m1, held, d, i, f);
    CopyOutForm(m, d, i, f);
    SeenInView(m, d, i);
    MapRefresh(ViewOf(m), (d, i));
  }

  lemma SeenInView(m: Mem, d: int, i: int)
    requires Shape(m) && FramesInRange(m) && User(d, i) && At(m, d, i).Present?
    ensures (d, i) in ViewOf(m) && ViewOf(m)[(d, i)] == m.data[At(m, d, i).frame]
  {
    assert Visible(d, i) && Seen(m, d, i);
  }

  lemma MapReplace<K, V>(v: map<K, V>, k: K, x: V)
    ensures (v - {k})[k := x] == v[k := x]
  {
  }

  lemma MapRefresh<K, V>(v: map<K, V>, k: K)
    requires k in v
    ensures v[k := v[k]] == v
  {
  }

  /** Exchanging the frame under an entry for a held one. */
  lemma Remap(m: Mem, held: seq<nat>, d: int, i: int, f: int)
    requires Inv(m, held) && User(d, i) && At(m, d, i).Present?
    requires LOW <= f < FRAMES && Count(m, f) == 1 == Kept(held, f)
    ensures At(m, d, i).frame >= LOW ==> Count(m, At(m, d, i).frame) > 0
    ensures Inv(MapHeld(Drop(m, d, i), d, i, f), Unhold(held, f))
    ensures ViewOf(MapHeld(Drop(m, d, i), d, i, f)) == ViewOf(m)[(d, i) := m.data[f]]
  {
    DropKeeps(m, held, d, i);
    var m2 := Drop(m, d, i);
    assert Count(m2, f) == 1 by { NoRefs(m, held, f); }
    MapHeldKeeps(m2, held, d, i, f);
    MapReplace(ViewOf(m), (d, i), m.data[f]);
  }

  lemma CopyOutAt(m: Mem, d: int, i: int, f: int)
    requires Shape(m) && TablesApart(m) && User(d, i) && At(m, d, i).Present? && At(m, d, i).frame < FRAMES
    requires At(m, d, i).frame >= LOW ==> Count(m, At(m, d, i).frame) > 0
    requires LOW <= f < FRAMES
    ensures forall a, b :: Visible(a, b) ==>
      At(CopyOut(m, d, i, f), a, b) == if a == d && b == i then Present(f, true, false) else At(m, a, b)
  {
    AtAfterSetEntry(m, d, i, Present(f, true, false));
    var e := SetEntry(m, d, i, Present(f, true, false));
    assert CopyOut(m, d, i, f).table == e.table && CopyOut(m, d, i, f).dir == e.dir;
    assert SameEntries(e, CopyOut(m, d, i, f));
  }

  lemma CopyOutForm(m: Mem, d: int, i: int, f: int)
    requires Shape(m) && User(d, i) && m.dir[d].Table? && At(m, d, i).Present? && At(m, d, i).frame < FRAMES
    requires At(m, d, i).frame >= LOW ==> Count(m, At(m, d, i).frame) > 0
    requires LOW <= f < FRAMES
    ensures CopyOut(m, d, i, f) == MapHeld(Drop(SetData(m, f, m.data[At(m, d, i).frame]), d, i), d, i, f)
  {
    var t := m.dir[d].frame;
    var e := Present(f, true, false);
    assert m.table[t][i := Absent][i := e] == m.table[t][i := e];
    assert m.table[t := m.table[t][i := Absent]][t := m.table[t][i := e]] == m.table[t := m.table[t][i := e]];
  }

  /** The counts are a function of who maps what and of the kernel's holds. */
  lemma CountsDetermined(m: Mem, r: Mem, held: seq<nat>)
    requires Inv(m, held) && Inv(r, held) && SameElsewhere(m, r, -1, -1) && m.dir == r.dir
    ensures m.count == r.count
  {
    forall f | LOW <= f < FRAMES
      ensures Count(m, f) == Count(r, f)
    {
      forall p: (int, int)
        ensures p in Refs(r, f) <==> p in Refs(m, f)
      {
        RefsMember(m, p.0, p.1, f);
        RefsMember(r, p.0, p.1, f);
        assert User(p.0, p.1) ==> Visible(p.0, p.1);
      }
      assert Refs(r, f) == Refs(m, f);
      assert TableRefs(r, f) == TableRefs(m, f);
    }
    assert forall k :: 0 <= k < PAGING_PAGES ==> m.count[k] == Count(m, k + LOW) && r.count[k] == Count(r, k + LOW);
  }

  /** No reference counter can reach the byte limit: a user frame is used at most
      once per task slot, because all its mappings sit at the same offset. */
  lemma CountBound(m: Mem, held: seq<nat>, f: int)
    requires Inv(m, held) && LOW <= f < FRAMES
    ensures Count(m, f) <= USED
    ensures Kept(held, f) == 0 ==> Count(m, f) <= NR_TASKS - 1
  {
    if Kept(held, f) == 0 {
      if p :| p in Refs(m, f) {
        UsedFrame(m, held, p.0, p.1);
        SlotsBound(Refs(m, f), m, f);
      } else if d :| d in TableRefs(m, f) {
        assert Count(m, m.dir[d].frame) == 1;
      } else {
        assert Refs(m, f) == {} && TableRefs(m, f) == {};
      }
    }
  }

  lemma SlotsBound(s: set<(int, int)>, m: Mem, f: int)
    requires Shape(m) && SameOffset(m) && s <= Refs(m, f) && LOW <= f
    ensures |s| <= NR_TASKS - 1
  {
    forall p | p in s
      ensures User(p.0, p.1) && Maps(m, p.0, p.1, f)
    {
      assert p in Refs(m, f);
    }
    forall p, q | p in s && q in s && p.0 / DIRS_PER_TASK == q.0 / DIRS_PER_TASK
      ensures p == q
    {
      assert Maps(m, p.0, p.1, f) && Maps(m, q.0, q.1, f);
      assert Coincide(m, p.0, p.1, q.0, q.1);
    }
    Pigeonhole(s, (p: (int, int)) => p.0 / DIRS_PER_TASK, 1, NR_TASKS);
  }

  // ---- the free frames ----

  ghost function Free(m: Mem): set<int>
    requires Shape(m)
  {
    set f: int | LOW <= f < FRAMES && Count(m, f) == 0
  }

  lemma TakeFree(m: Mem, f: int)
    requires Shape(m) && FreeFrame(m, f)
    ensures f in Free(m) && Free(Take(m, f)) == Free(m) - {f}
  {
    forall g
      ensures g in Free(Take(m, f)) <==> g in Free(m) - {f}
    {
    }
  }

  /** Only frames in use are shared. */
  lemma ShareFree(m: Mem, held: seq<nat>, fd: int, td: int, i: int)
    requires Inv(m, held) && CanShare(m, fd, td, i)
    ensures Free(Share(m, fd, td, i)) == Free(m)
  {
    var f, r := At(m, fd, i).frame, Share(m, fd, td, i);
    if f >= LOW {
      UsedFrame(m, held, fd, i);
    }
    forall g
      ensures g in Free(r) <==> g in Free(m)
    {
    }
  }

  lemma SameCountsFree(m: Mem, r: Mem)
    requires Shape(m) && Shape(r) && r.count == m.count
    ensures Free(r) == Free(m)
  {
  }
}
