/** Stores made by the kernel itself, put_fs_byte and its like in
    include/asm/segment.h: at privilege level 0 the 80386 ignores the R/W bit, so no
    page fault unshares the page first. */
module KernelStores {
  import opened PageModel
  import opened PageSteps

  /** A byte stored through entry (d, i), writable or not; the processor sets dirty. */
  function Stored(m: Mem, d: int, i: int, off: int, v: int): (r: Mem)
    requires Shape(m) && Seen(m, d, i) && 0 <= off < PAGE_SIZE
    ensures Shape(r)
  {
    var e := At(m, d, i);
    SetData(SetEntry(m, d, i, e.(dirty := true)), e.frame, m.data[e.frame][off := v])
  }

  ghost predicate Shares(m: Mem, d: int, i: int, a: int, b: int)
    requires Shape(m) && Seen(m, d, i)
  {
    (a, b) != (d, i) && Seen(m, a, b) && At(m, a, b).frame == At(m, d, i).frame
  }

  /** No other visible entry maps the frame. */
  ghost predicate Alone(m: Mem, d: int, i: int)
    requires Shape(m) && Seen(m, d, i)
  {
    forall a, b :: !Shares(m, d, i, a, b)
  }

  /** What can be checked before the store. */
  predicate Guarded(m: Mem, d: int, i: int)
    requires Shape(m) && Visible(d, i) && At(m, d, i).Present?
  {
    var f := At(m, d, i).frame;
    LOW <= f < FRAMES && Count(m, f) == 1
  }

  /** Every other page of the view is what it was. */
  ghost predicate OthersSame(m: Mem, r: Mem, d: int, i: int)
    requires Shape(m) && Shape(r)
  {
    forall q :: q != (d, i) ==> AgreeAt(ViewOf(m), ViewOf(r), q)
  }

  /** Setting the dirty bit changes neither the invariant nor what anybody sees. */
  lemma DirtyKeeps(m: Mem, held: seq<nat>, d: int, i: int)
    requires Inv(m, held) && Seen(m, d, i)
    ensures Inv(SetEntry(m, d, i, At(m, d, i).(dirty := true)), held)
    ensures ViewOf(SetEntry(m, d, i, At(m, d, i).(dirty := true))) == ViewOf(m)
    ensures SameElsewhere(m, SetEntry(m, d, i, At(m, d, i).(dirty := true)), -1, -1)
  {
    var e := At(m, d, i).(dirty := true);
    if User(d, i) {
      FlagsKeep(m, held, d, i, e);
    } else {
      KernelAt(m, i, e);
      KernelExact(m, held, i, e);
      OffsetsSubset(m, SetEntry(m, 0, i, e));
      ViewByEntries(m, SetEntry(m, 0, i, e), -1, -1);
    }
  }

  /** The kernel's table lies below LOW_MEM and is nobody else's. */
  lemma KernelAt(m: Mem, i: int, e: Entry)
    requires Shape(m) && TablesApart(m) && FramesInRange(m) && 0 <= i < KERNEL_ENTRIES && SameFrame(e, At(m, 0, i))
    ensures forall a, b :: User(a, b) ==> At(SetEntry(m, 0, i, e), a, b) == At(m, a, b)
    ensures SameElsewhere(m, SetEntry(m, 0, i, e), -1, -1) && FramesInRange(SetEntry(m, 0, i, e))
  {
  }

  lemma KernelExact(m: Mem, held: seq<nat>, i: int, e: Entry)
    requires Inv(m, held) && 0 <= i < KERNEL_ENTRIES && SameFrame(e, At(m, 0, i))
    ensures Exact(SetEntry(m, 0, i, e), held)
  {
    var r := SetEntry(m, 0, i, e);
    KernelAt(m, i, e);
    forall f | LOW <= f < FRAMES
      ensures Count(r, f) == |Refs(r, f)| + |TableRefs(r, f)| + Kept(held, f)
    {
      assert Refs(r, f) == Refs(m, f) by {
        forall p: (int, int)
          ensures p in Refs(r, f) <==> p in Refs(m, f)
        {
          RefsMember(m, p.0, p.1, f);
          RefsMember(r, p.0, p.1, f);
        }
      }
      assert TableRefs(r, f) == TableRefs(m, f);
      assert Count(r, f) == Count(m, f);
    }
  }

  lemma StoredKeeps(m: Mem, held: seq<nat>, d: int, i: int, off: int, v: int)
    requires Inv(m, held) && Seen(m, d, i) && 0 <= off < PAGE_SIZE
    ensures Inv(Stored(m, d, i, off, v), held) && Stored(m, d, i, off, v).dir == m.dir
  {
    DirtyKeeps(m, held, d, i);
    var e := At(m, d, i);
    DataKeeps(SetEntry(m, d, i, e.(dirty := true)), held, e.frame, m.data[e.frame][off := v]);
  }

  /** Everybody who maps the frame sees the new byte. */
  lemma StoredAt(m: Mem, held: seq<nat>, d: int, i: int, off: int, v: int, q: (int, int))
    requires Inv(m, held) && Seen(m, d, i) && 0 <= off < PAGE_SIZE
    ensures q in ViewOf(Stored(m, d, i, off, v)) <==> q in ViewOf(m)
    ensures q in ViewOf(m) <==> Seen(m, q.0, q.1)
    ensures q in ViewOf(m) && At(m, q.0, q.1).frame == At(m, d, i).frame
      ==> ViewOf(Stored(m, d, i, off, v))[q] == ViewOf(m)[q][off := v]
    ensures q in ViewOf(m) && At(m, q.0, q.1).frame != At(m, d, i).frame
      ==> ViewOf(Stored(m, d, i, off, v))[q] == ViewOf(m)[q]
  {
    var e := At(m, d, i);
    var n := SetEntry(m, d, i, e.(dirty := true));
    var r := Stored(m, d, i, off, v);
    DirtyKeeps(m, held, d, i);
    ViewAt(m, q);
    ViewAt(r, q);
    assert Visible(q.0, q.1) ==> SameFrame(At(n, q.0, q.1), At(m, q.0, q.1));
    assert Visible(q.0, q.1) ==> At(r, q.0, q.1) == At(n, q.0, q.1);
  }

  /** A kernel store that changes a byte leaves every other page of every view alone
      exactly when no other visible entry maps the frame. */
  lemma KernelStoreAlone(m: Mem, held: seq<nat>, d: int, i: int, off: int, v: int)
    requires Inv(m, held) && Seen(m, d, i) && 0 <= off < PAGE_SIZE && PageAt(m, d, i)[off] != v
    ensures OthersSame(m, Stored(m, d, i, off, v), d, i) <==> Alone(m, d, i)
  {
    var r := Stored(m, d, i, off, v);
    hide Stored, Inv;
    if a, b :| Shares(m, d, i, a, b) {
      StoredAt(m, held, d, i, off, v, (a, b));
      ViewAt(m, (a, b));
      assert !AgreeAt(ViewOf(m), ViewOf(r), (a, b));
    } else {
      forall q | q != (d, i)
        ensures AgreeAt(ViewOf(m), ViewOf(r), q)
      {
        StoredAt(m, held, d, i, off, v, q);
        assert !Shares(m, d, i, q.0, q.1);
      }
    }
  }

  /** It is an eager store, one page of one view, exactly when nobody else maps the
      frame or the byte was there already. */
  lemma KernelStoreEager(m: Mem, held: seq<nat>, d: int, i: int, off: int, v: int)
    requires Inv(m, held) && Seen(m, d, i) && 0 <= off < PAGE_SIZE
    ensures ViewOf(Stored(m, d, i, off, v)) == ViewOf(m)[(d, i) := PageAt(m, d, i)[off := v]]
      <==> Alone(m, d, i) || PageAt(m, d, i)[off] == v
  {
    var r := Stored(m, d, i, off, v);
    hide Stored, Inv, ViewOf, Alone;
    StoredAt(m, held, d, i, off, v, (d, i));
    ViewAt(m, (d, i));
    if PageAt(m, d, i)[off] == v {
      assert PageAt(m, d, i)[off := v] == PageAt(m, d, i);
      forall q
        ensures AgreeAt(ViewOf(m), ViewOf(r), q)
      {
        StoredAt(m, held, d, i, off, v, q);
        ViewAt(m, q);
        if q in ViewOf(m) && At(m, q.0, q.1).frame == At(m, d, i).frame {
          SameByte(m, d, i, off, q);
        }
      }
    } else {
      KernelStoreAlone(m, held, d, i, off, v);
    }
    if OthersSame(m, r, d, i) {
      OneKey(ViewOf(m), ViewOf(r), (d, i));
    }
  }

  lemma SameByte(m: Mem, d: int, i: int, off: int, q: (int, int))
    requires Shape(m) && Seen(m, d, i) && Seen(m, q.0, q.1) && 0 <= off < PAGE_SIZE
    requires At(m, q.0, q.1).frame == At(m, d, i).frame
    ensures PageAt(m, q.0, q.1)[off := PageAt(m, d, i)[off]] == PageAt(m, q.0, q.1)
  {
  }

  /** For a task's page from LOW_MEM up the condition is a count of 1. */
  lemma GuardIsAlone(m: Mem, held: seq<nat>, d: int, i: int)
    requires Inv(m, held) && User(d, i) && At(m, d, i).Present? && LOW <= At(m, d, i).frame
    ensures Seen(m, d, i) && (Guarded(m, d, i) <==> Alone(m, d, i))
  {
    var f := At(m, d, i).frame;
    UsedFrame(m, held, d, i);
    assert Visible(d, i);
    if Guarded(m, d, i) {
      SoleUse(m, held, d, i);
      forall a, b
        ensures !Shares(m, d, i, a, b)
      {
        if Seen(m, a, b) && At(m, a, b).frame == f {
          RefsMember(m, a, b, f);
        }
      }
    } else {
      assert Refs(m, f) != {(d, i)};
      var q :| q in Refs(m, f) && q != (d, i);
      RefsMember(m, q.0, q.1, f);
      assert Shares(m, d, i, q.0, q.1);
    }
  }

  /** The failing input: once a page has been shared, whether by a fork or by
      try_to_share behind a verify_area that is over, a kernel store through one of
      the two entries shows through the other. With fd == 0 the first entry is the
      kernel's own, which task 1 shares from the first fork on. */
  lemma SharedThenStored(m: Mem, held: seq<nat>, fd: int, td: int, i: int, off: int, v: int)
    requires Inv(m, held) && CanShare(m, fd, td, i) && 0 <= off < PAGE_SIZE && PageAt(m, fd, i)[off] != v
    ensures Inv(Share(m, fd, td, i), held) && Seen(Share(m, fd, td, i), fd, i)
    ensures (td, i) in ViewOf(Share(m, fd, td, i)) && (td, i) in ViewOf(Stored(Share(m, fd, td, i), fd, i, off, v))
    ensures ViewOf(Share(m, fd, td, i))[(td, i)] == PageAt(m, fd, i)
    ensures ViewOf(Stored(Share(m, fd, td, i), fd, i, off, v))[(td, i)]
      == PageAt(m, fd, i)[off := v] != PageAt(m, fd, i)
  {
    ShareKeeps(m, held, fd, td, i);
    ShareFrames(m, held, fd, td, i);
    var s := Share(m, fd, td, i);
    hide Stored, Share, Inv;
    StoredAt(s, held, fd, i, off, v, (td, i));
    ViewAt(s, (td, i));
  }

  lemma ShareFrames(m: Mem, held: seq<nat>, fd: int, td: int, i: int)
    requires Inv(m, held) && CanShare(m, fd, td, i)
    ensures Seen(Share(m, fd, td, i), fd, i) && Seen(Share(m, fd, td, i), td, i)
    ensures At(Share(m, fd, td, i), td, i).frame == At(Share(m, fd, td, i), fd, i).frame == At(m, fd, i).frame
    ensures PageAt(Share(m, fd, td, i), td, i) == PageAt(m, fd, i)
  {
    ShareAt(m, fd, td, i);
  }
}
