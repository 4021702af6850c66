/** Which pages try_to_share may hand on.  The processor sets the dirty bit of an
    entry on a store; here is where clean entries come from in each step of
    PageSteps: they were clean before, are copies of clean ones, or are new. */
module CleanPages {
  import opened PageModel
  import opened PageSteps
  import opened KernelStores

  /** What try_to_share asks of the giver's page. */
  predicate Shareable(m: Mem, d: int, i: int)
    requires Shape(m) && Visible(d, i)
  {
    var e := At(m, d, i);
    e.Present? && !e.dirty && e.frame >= LOW
  }

  ghost predicate Clean(m: Mem, d: int, i: int)
    requires Shape(m)
  {
    User(d, i) && Shareable(m, d, i)
  }

  /** No entry became clean. */
  ghost predicate CleanKept(m: Mem, r: Mem)
    requires Shape(m) && Shape(r)
  {
    forall a, b :: Clean(r, a, b) ==> Clean(m, a, b)
  }

  /** No entry but (d, i) became clean. */
  ghost predicate CleanBut(m: Mem, r: Mem, d: int, i: int)
    requires Shape(m) && Shape(r)
  {
    forall a, b :: Clean(r, a, b) && !(a == d && b == i) ==> Clean(m, a, b)
  }

  /** No entry outside `n` directories from `d0` on became clean. */
  ghost predicate CleanOutside(m: Mem, r: Mem, d0: int, n: int)
    requires Shape(m) && Shape(r)
  {
    forall a, b :: Clean(r, a, b) && !(d0 <= a < d0 + n) ==> Clean(m, a, b)
  }

  /** The pages of `n` directories from `td` on, and of the next directory the
      first `part` pages. */
  ghost predicate InCopy(d: int, i: int, td: int, n: int, part: int) {
    td <= d < td + n || (d == td + n && i < part)
  }

  /** A clean entry of the copied range stands for a clean one of the source. */
  ghost predicate CleanCopied(m: Mem, r: Mem, fd: int, td: int, n: int, part: int)
    requires Shape(m) && Shape(r)
  {
    forall a, b :: Clean(r, a, b) ==> Clean(m, if InCopy(a, b, td, n, part) then fd + a - td else a, b)
  }

  lemma SameEntriesClean(m: Mem, r: Mem)
    requires Shape(m) && Shape(r) && SameEntries(m, r)
    ensures CleanKept(m, r)
  {
    forall a, b | Clean(r, a, b)
      ensures Clean(m, a, b)
    {
      assert Visible(a, b);
    }
  }

  lemma KeptTrans(m: Mem, x: Mem, r: Mem)
    requires Shape(m) && Shape(x) && Shape(r) && CleanKept(m, x) && CleanKept(x, r)
    ensures CleanKept(m, r)
  {
  }

  lemma OthersClean(m: Mem, r: Mem, d: int, i: int)
    requires Shape(m) && Shape(r) && OtherEntries(m, r, d, i)
    ensures CleanBut(m, r, d, i)
  {
    forall a, b | Clean(r, a, b) && !(a == d && b == i)
      ensures Clean(m, a, b)
    {
      assert Visible(a, b);
    }
  }

  lemma DropClean(m: Mem, held: seq<nat>, d: int, i: int)
    requires Inv(m, held) && User(d, i) && At(m, d, i).Present?
    requires At(m, d, i).frame >= LOW ==> Count(m, At(m, d, i).frame) > 0
    ensures CleanKept(m, Drop(m, d, i))
  {
    AtAfterSetEntry(m, d, i, Absent);
    forall a, b | Clean(Drop(m, d, i), a, b)
      ensures Clean(m, a, b)
    {
      assert Visible(a, b);
    }
  }

  lemma DropTableClean(m: Mem, held: seq<nat>, d: int)
    requires Inv(m, held) && DIRS_PER_TASK <= d < NR_DIRS && m.dir[d].Table?
    requires forall i :: 0 <= i < ENTRIES ==> At(m, d, i) == Absent
    ensures CleanKept(m, DropTable(m, d))
  {
    assert SameEntries(m, DropTable(m, d));
    SameEntriesClean(m, DropTable(m, d));
  }

  /** A clean entry of the receiver stands for a clean one of the giver. */
  ghost predicate EntryCopied(m: Mem, r: Mem, fd: int, td: int, i: int)
    requires Shape(m) && Shape(r)
  {
    forall a, b :: Clean(r, a, b) ==> Clean(m, if a == td && b == i then fd else a, b)
  }

  /** Sharing copies the giver's dirty bit. */
  lemma ShareClean(m: Mem, held: seq<nat>, fd: int, td: int, i: int)
    requires Inv(m, held) && CanShare(m, fd, td, i)
    ensures EntryCopied(m, Share(m, fd, td, i), fd, td, i)
  {
    ShareAt(m, fd, td, i);
    forall a, b | Clean(Share(m, fd, td, i), a, b)
      ensures Clean(m, if a == td && b == i then fd else a, b)
    {
      assert Visible(a, b);
    }
  }

  // ---- the copy made by fork ----

  lemma CopiedNothing(m: Mem, fd: int, td: int)
    requires Shape(m)
    ensures CleanCopied(m, m, fd, td, 0, 0) && CleanKept(m, m)
  {
  }

  lemma AbsentCopied(m: Mem, fd: int, td: int, i: int)
    requires Shape(m) && 0 <= td < NR_DIRS && 0 <= i < ENTRIES && At(m, td, i) == Absent
    ensures EntryCopied(m, m, fd, td, i)
  {
  }

  lemma SharedClean(m0: Mem, m: Mem, r: Mem, fd: int, td: int, i: int)
    requires Shape(m0) && Shape(m) && Shape(r) && SameEntries(m0, m) && EntryCopied(m, r, fd, td, i)
    ensures CleanBut(m0, r, td, i)
  {
    SameEntriesClean(m0, m);
    forall a, b | Clean(r, a, b) && !(a == td && b == i)
      ensures Clean(m0, a, b)
    {
      assert Clean(m, a, b);
    }
  }

  lemma CopiedNext(m0: Mem, m: Mem, r: Mem, fd: int, td: int, i: int)
    requires Shape(m0) && Shape(m) && Shape(r) && fd != td && 0 <= i < ENTRIES
    requires CleanCopied(m0, m, fd, td, 0, i) && EntryCopied(m, r, fd, td, i)
    ensures CleanCopied(m0, r, fd, td, 0, i + 1)
  {
    forall a, b | Clean(r, a, b)
      ensures Clean(m0, if InCopy(a, b, td, 0, i + 1) then fd + a - td else a, b)
    {
      assert Clean(m, if a == td && b == i then fd else a, b);
    }
  }

  lemma CopiedRow(m: Mem, r: Mem, fd: int, td: int, nr: int)
    requires Shape(m) && Shape(r) && 0 <= td < NR_DIRS && 0 <= nr <= ENTRIES
    requires CleanCopied(m, r, fd, td, 0, nr)
    requires forall j :: nr <= j < ENTRIES ==> At(m, td, j) == Absent
    ensures CleanCopied(m, r, fd, td, 1, 0)
  {
    forall a, b | Clean(r, a, b)
      ensures Clean(m, if InCopy(a, b, td, 1, 0) then fd + a - td else a, b)
    {
      assert Clean(m, if InCopy(a, b, td, 0, nr) then fd + a - td else a, b);
    }
  }

  lemma CopiedMore(m0: Mem, m: Mem, r: Mem, fd: int, td: int, n: int, k: int)
    requires Shape(m0) && Shape(m) && Shape(r) && 0 <= k < n && (fd + n <= td || td + n <= fd)
    requires CleanCopied(m0, m, fd, td, k, 0) && CleanCopied(m, r, fd + k, td + k, 1, 0)
    ensures CleanCopied(m0, r, fd, td, k + 1, 0)
  {
    forall a, b | Clean(r, a, b)
      ensures Clean(m0, if InCopy(a, b, td, k + 1, 0) then fd + a - td else a, b)
    {
      assert Clean(m, if InCopy(a, b, td + k, 1, 0) then fd + k + a - (td + k) else a, b);
    }
  }

  lemma CopiedLater(m0: Mem, m: Mem, r: Mem, fd: int, td: int, n: int)
    requires Shape(m0) && Shape(m) && Shape(r) && CleanKept(m0, m) && CleanCopied(m, r, fd, td, n, 0)
    ensures CleanCopied(m0, r, fd, td, n, 0)
  {
    forall a, b | Clean(r, a, b)
      ensures Clean(m0, if InCopy(a, b, td, n, 0) then fd + a - td else a, b)
    {
      assert Clean(m, if InCopy(a, b, td, n, 0) then fd + a - td else a, b);
    }
  }

  /** A new, empty table has no clean entry. */
  lemma TableClean(m: Mem, held: seq<nat>, f: int, d: int)
    requires Inv(m, held) && FreeFrame(m, f) && DIRS_PER_TASK <= d < NR_DIRS && m.dir[d] == NoTable
    ensures CleanKept(m, Install(Take(m, f), d, f))
  {
    NoRefs(m, held, f);
    TakeAt(m, f);
    assert SameEntries(m, Install(Take(m, f), d, f));
    SameEntriesClean(m, Install(Take(m, f), d, f));
  }

  lemma CopiedAbsent(m: Mem, fd: int, td: int)
    requires Shape(m) && 0 <= td < NR_DIRS && m.dir[td] == NoTable
    ensures CleanCopied(m, m, fd, td, 1, 0)
  {
  }

  lemma CopiedAt(m: Mem, r: Mem, fd: int, td: int, n: int, part: int, a: int, b: int)
    requires Shape(m) && Shape(r) && CleanCopied(m, r, fd, td, n, part) && Clean(r, a, b)
    ensures Clean(m, if InCopy(a, b, td, n, part) then fd + a - td else a, b)
  {
  }

  lemma CopiedOutside(m: Mem, r: Mem, fd: int, td: int, k: int, n: int)
    requires Shape(m) && Shape(r) && 0 <= k <= n && CleanCopied(m, r, fd, td, k, 0)
    ensures CleanOutside(m, r, td, n)
  {
    forall a, b | Clean(r, a, b) && !(td <= a < td + n)
      ensures Clean(m, a, b)
    {
      assert !InCopy(a, b, td, k, 0);
    }
  }

  // ---- the copies made by verify_area ----

  /** Only (d, i) may have changed. */
  ghost predicate OtherEntries(m: Mem, r: Mem, d: int, i: int)
    requires Shape(m) && Shape(r)
  {
    forall a, b :: Visible(a, b) && !(a == d && b == i) ==> At(r, a, b) == At(m, a, b)
  }

  /** The entry maps another frame than before. */
  ghost predicate Copied(m: Mem, r: Mem, d: int, i: int)
    requires Shape(m) && Shape(r)
  {
    User(d, i) && At(m, d, i).Present? && At(r, d, i).Present? && At(r, d, i).frame != At(m, d, i).frame
  }

  /** un_wp_page leaves the entry on its frame with its dirty bit, or, if the frame
      has other users, puts it on a copy that is clean: the new entry is page | 7. */
  ghost predicate EntryVerified(m: Mem, r: Mem, d: int, i: int)
    requires Shape(m) && Shape(r) && User(d, i)
  {
    if Copied(m, r, d, i) then Visible(d, i) && !Guarded(m, d, i) && Clean(r, d, i) && At(r, d, i).writable
    else SameFrame(At(r, d, i), At(m, d, i)) && (At(m, d, i).Present? ==> At(r, d, i).dirty == At(m, d, i).dirty)
  }

  /** What verify_area does to linear pages [first, last). */
  ghost predicate Verified(m: Mem, r: Mem, first: int, last: int)
    requires Shape(m) && Shape(r)
  {
    && (forall a, b :: User(a, b) ==> EntryVerified(m, r, a, b))
    && (forall a, b :: User(a, b) && !(first <= a * ENTRIES + b < last) ==> At(r, a, b) == At(m, a, b))
  }

  lemma VerifiedNothing(m: Mem, page: int)
    requires Shape(m)
    ensures Verified(m, m, page, page) && Unshared(m, m, page, page)
  {
  }

  lemma VerifiedWiden(m: Mem, r: Mem, first: int, page: int, last: int)
    requires Shape(m) && Shape(r) && Verified(m, r, first, page) && page <= last
    ensures Verified(m, r, first, last)
  {
  }

  /** A page whose frame had one user still has it to itself when its turn comes. */
  lemma GuardStays(m: Mem, held: seq<nat>, x: Mem, first: int, page: int, d: int, i: int)
    requires Inv(m, held) && Inv(x, held) && Verified(m, x, first, page) && User(d, i) && page == d * ENTRIES + i
    requires Visible(d, i) && At(m, d, i).Present? && Guarded(m, d, i)
    ensures At(x, d, i) == At(m, d, i) && Guarded(x, d, i)
  {
    var f := At(m, d, i).frame;
    assert At(x, d, i) == At(m, d, i);
    SoleUse(m, held, d, i);
    UsedFrame(x, held, d, i);
    forall q | q in Refs(x, f)
      ensures q == (d, i)
    {
      RefsMember(x, q.0, q.1, f);
      assert EntryVerified(m, x, q.0, q.1);
      if Copied(m, x, q.0, q.1) {
        SoleUse(x, held, q.0, q.1);
      } else {
        RefsMember(m, q.0, q.1, f);
      }
    }
    assert Refs(x, f) == {(d, i)};
  }

  lemma VerifiedMore(m0: Mem, held: seq<nat>, m: Mem, r: Mem, first: int, page: int)
    requires Inv(m0, held) && Inv(m, held) && Shape(m0) && Shape(m) && Shape(r)
    requires DIRS_PER_TASK * ENTRIES <= first <= page < NR_DIRS * ENTRIES
    requires Verified(m0, m, first, page) && OtherEntries(m, r, page / ENTRIES, page % ENTRIES)
    requires EntryVerified(m, r, page / ENTRIES, page % ENTRIES)
    ensures Verified(m0, r, first, page + 1)
  {
    hide Inv, Guarded, EntryVerified;
    var d, i := page / ENTRIES, page % ENTRIES;
    assert Visible(d, i) && At(m, d, i) == At(m0, d, i);
    if At(m0, d, i).Present? && Guarded(m0, d, i) {
      GuardStays(m0, held, m, first, page, d, i);
    }
    SameVerified(m0, m, r, d, i);
    forall a, b | User(a, b) && !(a == d && b == i)
      ensures EntryVerified(m0, r, a, b) && At(r, a, b) == At(m, a, b)
    {
      assert Visible(a, b);
      AlsoVerified(m0, m, r, a, b);
    }
    forall a, b | User(a, b) && !(first <= a * ENTRIES + b < page + 1)
      ensures At(r, a, b) == At(m0, a, b)
    {
      assert !(a == d && b == i);
    }
  }

  /** Each present page of [first, last) had its frame to itself, or moved to a copy. */
  ghost predicate Unshared(m: Mem, r: Mem, first: int, last: int)
    requires Shape(m) && Shape(r)
  {
    forall a, b :: User(a, b) && first <= a * ENTRIES + b < last ==> EntryUnshared(m, r, a, b)
  }

  ghost predicate EntryUnshared(m: Mem, r: Mem, d: int, i: int)
    requires Shape(m) && Shape(r) && User(d, i)
  {
    At(m, d, i).Present? ==> Visible(d, i) && (Guarded(m, d, i) || Copied(m, r, d, i))
  }

  /** Linear pages [first, last) belong to one task slot. */
  predicate OneSlot(first: int, last: int) {
    first / (DIRS_PER_TASK * ENTRIES) == (last - 1) / (DIRS_PER_TASK * ENTRIES)
  }

  /** The other users of a frame are other slots', so they still use it when the
      turn of this one comes. */
  lemma SharedStays(m: Mem, held: seq<nat>, x: Mem, first: int, page: int, d: int, i: int)
    requires Inv(m, held) && Inv(x, held) && Verified(m, x, first, page) && User(d, i) && page == d * ENTRIES + i
    requires Visible(d, i) && At(m, d, i).Present? && !Guarded(m, d, i) && first <= page && OneSlot(first, page + 1)
    ensures At(x, d, i) == At(m, d, i) && !Guarded(x, d, i)
  {
    var f := At(m, d, i).frame;
    assert At(x, d, i) == At(m, d, i);
    if f >= LOW {
      UsedFrame(m, held, d, i);
      assert Refs(m, f) != {(d, i)};
      var q :| q in Refs(m, f) && q != (d, i);
      RefsMember(m, q.0, q.1, f);
      assert Coincide(m, d, i, q.0, q.1);
      assert At(x, q.0, q.1) == At(m, q.0, q.1) by {
        OtherSlot(first, page, d, i, q.0);
      }
      RefsMember(x, q.0, q.1, f);
      if Guarded(x, d, i) {
        SoleUse(x, held, d, i);
        assert false;
      }
    }
  }

  lemma OtherSlot(first: int, page: int, d: int, i: int, a: int)
    requires User(d, i) && User(a, i) && a != d && a % DIRS_PER_TASK == d % DIRS_PER_TASK
    requires page == d * ENTRIES + i && first <= page && OneSlot(first, page + 1)
    ensures !(first <= a * ENTRIES + i < page)
  {
    assert page / (DIRS_PER_TASK * ENTRIES) == d / DIRS_PER_TASK;
  }

  lemma UnsharedMore(m0: Mem, held: seq<nat>, m: Mem, r: Mem, first: int, page: int)
    requires Inv(m0, held) && Inv(m, held) && Shape(m0) && Shape(m) && Shape(r) && OneSlot(first, page + 1)
    requires DIRS_PER_TASK * ENTRIES <= first <= page < NR_DIRS * ENTRIES
    requires Verified(m0, m, first, page) && Unshared(m0, m, first, page)
    requires OtherEntries(m, r, page / ENTRIES, page % ENTRIES)
    requires EntryUnshared(m, r, page / ENTRIES, page % ENTRIES)
    ensures Unshared(m0, r, first, page + 1)
  {
    hide Inv, Guarded, EntryVerified;
    var d, i := page / ENTRIES, page % ENTRIES;
    assert Visible(d, i) && At(m, d, i) == At(m0, d, i);
    if At(m0, d, i).Present? && !Guarded(m0, d, i) {
      SharedStays(m0, held, m, first, page, d, i);
    }
    forall a, b | User(a, b) && first <= a * ENTRIES + b < page + 1
      ensures EntryUnshared(m0, r, a, b)
    {
      if a * ENTRIES + b < page {
        assert EntryUnshared(m0, m, a, b);
        assert Visible(a, b) && !(a == d && b == i);
      } else {
        assert a == d && b == i;
      }
    }
  }

  lemma SameVerified(m0: Mem, m: Mem, r: Mem, d: int, i: int)
    requires Shape(m0) && Shape(m) && Shape(r) && User(d, i) && Visible(d, i) && At(m, d, i) == At(m0, d, i)
    requires EntryVerified(m, r, d, i) && (At(m0, d, i).Present? && Guarded(m0, d, i) ==> Guarded(m, d, i))
    ensures EntryVerified(m0, r, d, i)
  {
  }

  lemma AlsoVerified(m0: Mem, m: Mem, r: Mem, a: int, b: int)
    requires Shape(m0) && Shape(m) && Shape(r) && User(a, b)
    requires EntryVerified(m0, m, a, b) && At(r, a, b) == At(m, a, b)
    ensures EntryVerified(m0, r, a, b)
  {
  }

  lemma UnchangedVerified(m: Mem, d: int, i: int)
    requires Shape(m) && User(d, i)
    ensures EntryVerified(m, m, d, i) && OtherEntries(m, m, d, i)
  {
  }

  lemma FlagsVerified(m: Mem, r: Mem, d: int, i: int)
    requires Shape(m) && Shape(r) && User(d, i) && SameFrame(At(r, d, i), At(m, d, i))
    requires At(m, d, i).Present? ==> At(r, d, i).dirty == At(m, d, i).dirty
    ensures EntryVerified(m, r, d, i)
  {
  }

  lemma StoredOthers(m: Mem, m1: Mem, r: Mem, d: int, i: int)
    requires Shape(m) && Shape(m1) && Shape(r) && TablesApart(m) && User(d, i) && At(m, d, i).Present?
    requires m1 == SetEntry(m, d, i, At(m, d, i).(dirty := true)) && r.dir == m1.dir && r.table == m1.table
    ensures OtherEntries(m, r, d, i) && At(r, d, i) == At(m, d, i).(dirty := true)
  {
    AtAfterSetEntry(m, d, i, At(m, d, i).(dirty := true));
  }

  /** A store leaves its entry dirty, whatever un_wp_page made of it before. */
  lemma DirtiedClean(m0: Mem, m: Mem, r: Mem, d: int, i: int)
    requires Shape(m0) && Shape(m) && Shape(r) && User(d, i)
    requires OtherEntries(m0, m, d, i) && OtherEntries(m, r, d, i) && At(r, d, i).Present? && At(r, d, i).dirty
    ensures CleanKept(m0, r) && !Clean(r, d, i)
  {
    forall a, b | Clean(r, a, b)
      ensures Clean(m0, a, b)
    {
      assert Visible(a, b);
    }
  }

  /** The frame of the copy was free, so it is another one. */
  lemma CopyOutVerified(m: Mem, held: seq<nat>, x: Mem, d: int, i: int, f: int)
    requires Inv(m, held) && User(d, i) && At(m, d, i).Present? && FreeFrame(m, f)
    requires Shape(x) && SameEntries(m, x) && x.dir[d].Table?
    requires At(x, d, i).Present? && At(x, d, i).frame >= LOW ==> Count(x, At(x, d, i).frame) > 0
    requires At(x, d, i).frame < FRAMES && TablesApart(x) && Visible(d, i) && !Guarded(m, d, i)
    ensures EntryVerified(m, CopyOut(x, d, i, f), d, i) && OtherEntries(m, CopyOut(x, d, i, f), d, i)
    ensures Copied(m, CopyOut(x, d, i, f), d, i)
  {
    assert Visible(d, i);
    CopyOutAt(x, d, i, f);
    if At(m, d, i).frame >= LOW {
      UsedFrame(m, held, d, i);
    }
  }
}
