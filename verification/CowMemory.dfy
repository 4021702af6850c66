/** Copy-on-write memory management (mm/memory.c and the memory half of
    kernel/fork.c and kernel/exit.c), updated in place, against an eager model in
    which fork copies every page at once. */
module CowMemory {
  import opened PageModel
  import opened PageSteps
  import opened KernelStores
  import opened CleanPages

  // ---- the eager model ----

  /** The pages of `n` directories from `fd` on, copied to `td` on, and of the
      next directory the first `part` pages. */
  ghost function EagerCopy(v: View, fd: int, td: int, n: int, part: int): View {
    map d: int, i: int | 0 <= d < NR_DIRS && 0 <= i < ENTRIES
        && (if InCopy(d, i, td, n, part) then (fd + d - td, i) in v else (d, i) in v)
      :: (d, i) := if InCopy(d, i, td, n, part) then v[(fd + d - td, i)] else v[(d, i)]
  }

  /** The view without `n` directories from `d0` on and without the first `part`
      pages of the next one. */
  ghost function Without(v: View, d0: int, n: int, part: int): View {
    map k | k in v && !InCopy(k.0, k.1, d0, n, part) :: v[k]
  }

  /** All directories outside [d0, d0 + n) map the same frames. */
  ghost predicate SameOutside(m: Mem, r: Mem, d0: int, n: int)
    requires Shape(m) && Shape(r)
  {
    && (forall a, b :: Visible(a, b) && !(d0 <= a < d0 + n) ==> SameFrame(At(r, a, b), At(m, a, b)))
    && (forall d :: 0 <= d < NR_DIRS && !(d0 <= d < d0 + n) ==> r.dir[d] == m.dir[d])
  }

  ghost predicate NoTables(m: Mem, d0: int, n: int)
    requires Shape(m)
  {
    forall d :: 0 <= d < NR_DIRS && d0 <= d < d0 + n ==> m.dir[d] == NoTable
  }

  /** The linear pages verify_area looks at: [FirstPage, LastPage). */
  function FirstPage(start: int): int {
    start / PAGE_SIZE
  }

  function LastPage(start: int, size: int): int {
    (start + size + PAGE_SIZE - 1) / PAGE_SIZE
  }

  const TABLE_SPAN: int := 0x400000

  function Dirs(size: int): int
    requires 0 <= size
  {
    (size + 0x3fffff) / TABLE_SPAN
  }

  class Mm {
    const memMap: array<nat>
    const pgDir: array<DirEntry>
    const tables: array<EntryTable>
    const pages: array<Page>
    /** What the kernel holds besides page tables and user mappings: task
        structures, reserved frames, pages in transit. */
    ghost var held: seq<nat>

    ghost function St(): Mem
      reads memMap, pgDir, tables, pages
    {
      Mem(memMap[..], pgDir[..], tables[..], pages[..])
    }

    ghost predicate Valid()
      reads this, memMap, pgDir, tables, pages
    {
      Shape(St()) && |held| == PAGING_PAGES && Inv(St(), held)
    }

    /** mem_init, on top of the boot page tables: directory entry 0 points at the
        kernel's table in frame 1, which maps the first 640 kB to low frames.  Every
        counted frame is marked USED, then [start, end) is freed. */
    constructor (start: int, end: int, kernelTable: EntryTable, image: Page)
      requires LOW <= start <= end <= FRAMES
      requires forall i :: 0 <= i < KERNEL_ENTRIES && kernelTable[i].Present? ==> kernelTable[i].frame < LOW
      ensures Valid() && fresh(memMap) && fresh(pgDir) && fresh(tables) && fresh(pages)
      ensures forall f :: LOW <= f < FRAMES ==> Count(St(), f) == Kept(held, f) == if start <= f < end then 0 else USED
      ensures forall d :: 1 <= d < NR_DIRS ==> St().dir[d] == NoTable
    {
      memMap := new nat[PAGING_PAGES](_ => USED);
      pgDir := new DirEntry[NR_DIRS](d => if d == 0 then Table(1) else NoTable);
      tables := new EntryTable[FRAMES](_ => kernelTable);
      pages := new Page[FRAMES](_ => image);
      held := [];
      new;
      var i := start;
      while i < end
        invariant start <= i <= end
        invariant forall k :: 0 <= k < PAGING_PAGES ==> memMap[k] == if start <= k + LOW < i then 0 else USED
        invariant St().dir == pgDir[..] && fresh(memMap)
        invariant forall d :: 1 <= d < NR_DIRS ==> pgDir[d] == NoTable
        invariant pgDir[0] == Table(1) && tables[1] == kernelTable
      {
        memMap[i - LOW] := 0;
        i := i + 1;
      }
      held := memMap[..];
      BootInv(St(), held);
    }

    /** Scans mem_map from the top for a free frame; 0 means none. */
    method GetFreePage() returns (f: int)
      requires Valid()
      modifies `held, memMap, tables, pages
      ensures Valid() && ViewOf(St()) == old(ViewOf(St()))
      ensures SameElsewhere(old(St()), St(), -1, -1) && St().dir == old(St()).dir
      ensures f == 0 ==> St() == old(St()) && held == old(held) && Free(St()) == {}
      ensures f != 0 ==> FreeFrame(old(St()), f) && St() == Take(old(St()), f) && held == Hold(old(held), f)
      ensures f != 0 ==> forall g :: f < g < FRAMES ==> old(Count(St(), g)) != 0
      ensures f != 0 ==> Count(St(), f) == 1 == Kept(held, f)
    {
      var k := PAGING_PAGES;
      while k > 0 && memMap[k - 1] != 0
        invariant 0 <= k <= PAGING_PAGES
        invariant forall g :: LOW + k <= g < FRAMES ==> Count(St(), g) != 0
      {
        assert Count(St(), LOW + k - 1) == memMap[k - 1];
        k := k - 1;
      }
      if k == 0 {
        assert Free(St()) == {};
        return 0;
      }
      f := LOW + k - 1;
      assert Count(St(), f) == memMap[k - 1];
      TakeKeeps(St(), held, f);
      memMap[k - 1] := 1;
      tables[f] := EmptyTable();
      pages[f] := ZeroPage();
      held := Hold(held, f);
      assert St() == Take(old(St()), f);
    }

    /** Frames below LOW_MEM are ignored; freeing a free frame would panic. */
    method FreePage(f: int)
      requires Shape(St()) && 0 <= f < FRAMES && (f >= LOW ==> Count(St(), f) > 0)
      modifies memMap
      ensures St() == if f < LOW then old(St()) else SetCount(old(St()), f, old(Count(St(), f)) - 1)
    {
      if f < LOW {
        return;
      }
      assert Count(St(), f) == memMap[f - LOW];
      memMap[f - LOW] := memMap[f - LOW] - 1;
    }

    // ---- free_page_tables ----

    method FreeEntry(d: int, i: int)
      requires Valid() && User(d, i) && pgDir[d].Table?
      modifies memMap, tables
      ensures Valid() && St().dir == old(St()).dir
      ensures At(St(), d, i) == Absent && SameElsewhere(old(St()), St(), d, i)
      ensures ViewOf(St()) == old(ViewOf(St())) - {(d, i)} && CleanKept(old(St()), St())
    {
      hide CleanKept, CleanCopied;
      var t := pgDir[d].frame;
      var e := tables[t][i];
      assert e == At(St(), d, i);
      CopiedNothing(St(), d, d);
      if e.Present? {
        DropKeeps(St(), held, d, i);
        DropClean(St(), held, d, i);
        FreePage(e.frame);
        tables[t] := tables[t][i := Absent];
        assert St() == Drop(old(St()), d, i);
      } else {
        tables[t] := tables[t][i := Absent];
        assert tables[t] == old(tables[t]);
        assert St() == old(St());
        assert !Seen(St(), d, i);
      }
    }

    /** One round of the outer loop: all entries of a table, then the table. */
    method FreeTable(d: int)
      requires Valid() && DIRS_PER_TASK <= d < NR_DIRS && pgDir[d].Table?
      modifies memMap, pgDir, tables
      ensures Valid() && SameOutside(old(St()), St(), d, 1) && pgDir[d] == NoTable
      ensures ViewOf(St()) == Without(old(ViewOf(St())), d, 1, 0) && CleanKept(old(St()), St())
    {
      hide CleanKept, CleanCopied, Without, SameOutside, PageSteps.SameElsewhere, PageModel.ViewOf;
      hide PageModel.Exact, PageModel.Exclusive, PageModel.SameOffset, PageModel.Protected;
      var nr := 0;
      FreeNothing(St(), d);
      CopiedNothing(St(), d, d);
      SameOutsideWiden(St(), d);
      while nr < ENTRIES
        invariant 0 <= nr <= ENTRIES
        invariant Valid() && St().dir == old(St()).dir
        invariant forall j :: 0 <= j < nr ==> At(St(), d, j) == Absent
        invariant SameOutside(old(St()), St(), d, 1) && CleanKept(old(St()), St())
        invariant ViewOf(St()) == Without(old(ViewOf(St())), d, 0, nr)
      {
        ghost var m := St();
        FreeEntry(d, nr);
        FreeRow(old(St()), m, St(), d, nr);
        KeptTrans(old(St()), m, St());
        WithoutNext(old(ViewOf(St())), d, nr);
        nr := nr + 1;
      }
      ghost var m := St();
      DropTableKeeps(m, held, d);
      DropTableClean(m, held, d);
      TablesInRange(m, held, d);
      FreePage(pgDir[d].frame);
      pgDir[d] := NoTable;
      assert St() == DropTable(m, d);
      KeptTrans(old(St()), m, St());
      SameOutsideDrop(old(St()), m, d);
      WithoutRow(old(St()), d);
    }

    method FreeDir(d: int)
      requires Valid() && DIRS_PER_TASK <= d < NR_DIRS
      modifies memMap, pgDir, tables
      ensures Valid() && SameOutside(old(St()), St(), d, 1) && St().dir[d] == NoTable
      ensures ViewOf(St()) == Without(old(ViewOf(St())), d, 1, 0) && CleanKept(old(St()), St())
      ensures old(St()).dir[d] == NoTable ==> St() == old(St())
    {
      hide CleanKept, CleanCopied;
      CopiedNothing(St(), d, d);
      if pgDir[d].Table? {
        FreeTable(d);
      } else {
        WithoutEmpty(St(), d);
      }
    }

    method FreeDirs(d0: int, n: int)
      requires Valid() && 0 <= n && DIRS_PER_TASK <= d0 && d0 + n <= NR_DIRS
      modifies memMap, pgDir, tables
      ensures Valid() && SameOutside(old(St()), St(), d0, n) && NoTables(St(), d0, n)
      ensures ViewOf(St()) == Without(old(ViewOf(St())), d0, n, 0) && CleanKept(old(St()), St())
      ensures NoTables(old(St()), d0, n) ==> St() == old(St())
    {
      hide PageModel.Inv, Without, SameOutside, NoTables, PageModel.ViewOf, CleanKept, CleanCopied;
      var k := 0;
      FreeNothing(St(), d0);
      CopiedNothing(St(), d0, d0);
      while k < n
        invariant 0 <= k <= n
        invariant Valid() && SameOutside(old(St()), St(), d0, k)
        invariant NoTables(St(), d0, k) && CleanKept(old(St()), St())
        invariant ViewOf(St()) == Without(old(ViewOf(St())), d0, k, 0)
        invariant NoTables(old(St()), d0, n) ==> St() == old(St())
      {
        ghost var m := St();
        NoTablesAt(m, d0, n, k);
        FreeDir(d0 + k);
        OutsideGrows(old(St()), m, St(), d0, k);
        KeptTrans(old(St()), m, St());
        WithoutMore(old(ViewOf(St())), d0, k);
        k := k + 1;
      }
    }

    /** free_page_tables(from, size).  Two calls in a row are harmless: the second
        finds no tables and changes nothing. */
    method FreePageTables(from: int, size: int)
      requires Valid() && 0 <= size
      requires from % TABLE_SPAN == 0 && DIRS_PER_TASK <= from / TABLE_SPAN && from / TABLE_SPAN + Dirs(size) <= NR_DIRS
      modifies memMap, pgDir, tables
      ensures Valid()
      ensures SameOutside(old(St()), St(), from / TABLE_SPAN, Dirs(size))
      ensures NoTables(St(), from / TABLE_SPAN, Dirs(size)) && CleanKept(old(St()), St())
      ensures ViewOf(St()) == Without(old(ViewOf(St())), from / TABLE_SPAN, Dirs(size), 0)
      ensures NoTables(old(St()), from / TABLE_SPAN, Dirs(size)) ==> St() == old(St())
    {
      FreeDirs(from / TABLE_SPAN, Dirs(size));
    }
  
    // ---- copy_page_tables ----

    /** The loop body: share one entry, write-protecting both sides. */
    method CopyEntry(fd: int, td: int, i: int)
      requires Valid() && Visible(fd, i) && User(td, i) && fd != td && fd % DIRS_PER_TASK == td % DIRS_PER_TASK
      requires pgDir[fd].Table? && pgDir[td].Table? && At(St(), td, i) == Absent
      modifies memMap, tables
      ensures Valid() && St().dir == old(St()).dir && SameElsewhere(old(St()), St(), td, i)
      ensures ViewOf(St()) == EagerEntry(old(ViewOf(St())), fd, td, i)
      ensures Free(St()) == Free(old(St())) && EntryCopied(old(St()), St(), fd, td, i)
      ensures SameFrame(At(St(), td, i), At(old(St()), fd, i))
    {
      hide PageModel.Exact, PageModel.Exclusive, PageModel.SameOffset, PageModel.Protected, PageModel.ViewOf;
      hide PageSteps.SameElsewhere, PageSteps.Free, EntryCopied;
      var ft, tt := pgDir[fd].frame, pgDir[td].frame;
      var e := tables[ft][i];
      assert e == At(St(), fd, i);
      SeenIff(St(), held, fd, i);
      SameElsewhereSelf(St(), td, i);
      if !e.Present? {
        AbsentCopied(St(), fd, td, i);
        return;
      }
      ShareKeeps(St(), held, fd, td, i);
      ShareClean(St(), held, fd, td, i);
      ShareAt(St(), fd, td, i);
      ShareFree(St(), held, fd, td, i);
      var ro := e.(writable := false);
      tables[tt] := tables[tt][i := ro];
      if ro.frame >= LOW {
        tables[ft] := tables[ft][i := ro];
        assert Count(old(St()), ro.frame) == memMap[ro.frame - LOW];
        memMap[ro.frame - LOW] := memMap[ro.frame - LOW] + 1;
      }
      assert St() == Share(old(St()), fd, td, i);
    }

    method CopyTable(fd: int, td: int, nr: int)
      requires Valid() && DIRS_PER_TASK <= td < NR_DIRS && 0 <= fd < NR_DIRS
      requires fd != td && fd % DIRS_PER_TASK == td % DIRS_PER_TASK
      requires (fd == 0 && nr == KERNEL_ENTRIES) || (DIRS_PER_TASK <= fd && nr == ENTRIES)
      requires pgDir[fd].Table? && pgDir[td].Table? && EmptyRow(St(), td)
      modifies memMap, tables
      ensures Valid() && St().dir == old(St()).dir && SameOutside(old(St()), St(), td, 1)
      ensures ViewOf(St()) == EagerCopy(old(ViewOf(St())), fd, td, 1, 0)
      ensures Free(St()) == Free(old(St())) && CleanCopied(old(St()), St(), fd, td, 1, 0)
      ensures RowShared(old(St()), St(), fd, td, nr)
    {
      hide RowShared, CleanCopied, CleanKept, EntryCopied, PageSteps.Free, EagerCopy, EagerEntry, SameOutside,
           PageSteps.SameElsewhere, PageModel.ViewOf;
      hide PageModel.Exact, PageModel.Exclusive, PageModel.SameOffset, PageModel.Protected;
      var i := 0;
      CopyNothing(St(), fd, td);
      CopiedNothing(St(), fd, td);
      SharedNothing(St(), fd, td);
      SameOutsideWiden(St(), td);
      while i < nr
        invariant 0 <= i <= nr
        invariant Valid() && St().dir == old(St()).dir && SameOutside(old(St()), St(), td, 1)
        invariant forall j :: i <= j < ENTRIES ==> At(St(), td, j) == Absent
        invariant ViewOf(St()) == EagerCopy(old(ViewOf(St())), fd, td, 0, i) && Free(St()) == Free(old(St()))
        invariant CleanCopied(old(St()), St(), fd, td, 0, i) && RowShared(old(St()), St(), fd, td, i)
      {
        ghost var m := St();
        CopyEntry(fd, td, i);
        CopyRow(old(St()), m, St(), td, i);
        EagerNext(old(St()), fd, td, i);
        CopiedNext(old(St()), m, St(), fd, td, i);
        SharedNext(old(St()), m, St(), fd, td, i);
        i := i + 1;
      }
      EagerRow(old(St()), fd, td, nr);
      CopiedRow(old(St()), St(), fd, td, nr);
    }

    method CopyDir(fd: int, td: int) returns (ok: bool)
      requires Valid() && DIRS_PER_TASK <= td < NR_DIRS && (fd == 0 || DIRS_PER_TASK <= fd < NR_DIRS)
      requires fd != td && fd % DIRS_PER_TASK == td % DIRS_PER_TASK && pgDir[td] == NoTable
      modifies `held, memMap, pgDir, tables, pages
      ensures Valid() && held == old(held) && SameOutside(old(St()), St(), td, 1)
      ensures ok ==> ViewOf(St()) == EagerCopy(old(ViewOf(St())), fd, td, 1, 0)
      ensures ok ==> CleanCopied(old(St()), St(), fd, td, 1, 0) && RowShared(old(St()), St(), fd, td, RowLen(fd))
      ensures !ok ==> St() == old(St()) && Free(St()) == {}
      ensures |Free(St())| >= |Free(old(St()))| - 1
    {
      hide RowShared, CleanCopied, CleanKept, PageSteps.Free, EagerCopy, SameOutside, PageSteps.SameElsewhere,
           PageModel.ViewOf;
      hide PageModel.Exact, PageModel.Exclusive, PageModel.SameOffset, PageModel.Protected;
      SameOutsideWiden(St(), td);
      if pgDir[fd] == NoTable {
        CopyAbsent(St(), fd, td);
        CopiedAbsent(St(), fd, td);
        SharedAbsent(St(), fd, td);
        return true;
      }
      var f := GetFreePage();
      if f == 0 {
        return false;
      }
      ghost var m := St();
      TakeFree(old(St()), f);
      InstallKeeps(m, held, td, f);
      pgDir[td] := Table(f);
      held := Unhold(held, f);
      assert St() == Install(m, td, f);
      assert held == old(held);
      OutsideInstall(old(St()), m, St(), td);
      ghost var m1 := St();
      TableClean(old(St()), old(held), f, td);
      SameCountsFree(m, m1);
      CopyTable(fd, td, RowLen(fd));
      OutsideTrans(old(St()), m1, St(), td);
      CopiedLater(old(St()), m1, St(), fd, td, 1);
      SharedLater(old(St()), m1, St(), fd, td);
      return true;
    }

    /** One round of copy_page_tables: directory k of the range. */
    method CopyNext(fd: int, td: int, n: int, k: int, ghost m: Mem) returns (ok: bool)
      requires Valid() && 0 <= k < n <= DIRS_PER_TASK && DIRS_PER_TASK <= td && td + n <= NR_DIRS
      requires (fd == 0 && n <= 1) || (DIRS_PER_TASK <= fd && fd + n <= NR_DIRS && (fd + n <= td || td + n <= fd))
      requires fd % DIRS_PER_TASK == 0 && td % DIRS_PER_TASK == 0
      requires Shape(m) && NoTables(m, td, n) && SameOutside(m, St(), td, k)
        && ViewOf(St()) == EagerCopy(ViewOf(m), fd, td, k, 0) && CleanCopied(m, St(), fd, td, k, 0)
      requires DirsShared(m, St(), fd, td, k)
      modifies `held, memMap, pgDir, tables, pages
      ensures Valid() && held == old(held)
      ensures ok ==> SameOutside(m, St(), td, k + 1) && ViewOf(St()) == EagerCopy(ViewOf(m), fd, td, k + 1, 0)
      ensures ok ==> CleanCopied(m, St(), fd, td, k + 1, 0) && DirsShared(m, St(), fd, td, k + 1)
      ensures !ok ==> St() == old(St()) && Free(St()) == {} && SameOutside(m, St(), td, n)
      ensures |Free(St())| >= |Free(old(St()))| - 1
    {
      hide DirsShared, RowShared, CleanCopied, PageSteps.Free, EagerCopy, SameOutside, NoTables, PageModel.ViewOf,
           PageModel.Inv;
      ghost var m1 := St();
      NoTablesAt(m, td, n, k);
      OutsideDir(m, m1, td, k);
      ok := CopyDir(fd + k, td + k);
      if !ok {
        OutsideWider(m, m1, td, k, n);
        return;
      }
      OutsideGrows(m, m1, St(), td, k);
      EagerMore(m, fd, td, n, k);
      CopiedMore(m, m1, St(), fd, td, n, k);
      SharedMore(m, m1, St(), fd, td, n, k);
    }

    /** copy_page_tables on directory indices; on failure (false) the receiver holds
        the directories copied so far. */
    method CopyPageTables(fd: int, td: int, n: int) returns (ok: bool)
      requires Valid() && 0 <= n <= DIRS_PER_TASK && DIRS_PER_TASK <= td && td + n <= NR_DIRS
      requires (fd == 0 && n <= 1) || (DIRS_PER_TASK <= fd && fd + n <= NR_DIRS && (fd + n <= td || td + n <= fd))
      requires fd % DIRS_PER_TASK == 0 && td % DIRS_PER_TASK == 0
      requires NoTables(St(), td, n)
      modifies `held, memMap, pgDir, tables, pages
      ensures Valid() && held == old(held) && SameOutside(old(St()), St(), td, n)
      ensures ok ==> ViewOf(St()) == EagerCopy(old(ViewOf(St())), fd, td, n, 0)
      ensures ok ==> CleanCopied(old(St()), St(), fd, td, n, 0) && DirsShared(old(St()), St(), fd, td, n)
      ensures CleanOutside(old(St()), St(), td, n)
      ensures !ok ==> exists k :: 0 <= k < n && ViewOf(St()) == EagerCopy(old(ViewOf(St())), fd, td, k, 0)
      ensures !ok ==> |Free(old(St()))| < n
    {
      hide PageSteps.Free, EagerCopy, EagerEntry, SameOutside, NoTables, PageSteps.SameElsewhere, PageModel.ViewOf,
           PageModel.Inv, CleanCopied, CleanKept, CleanOutside, DirsShared;
      var k := 0;
      CopyNothing(St(), fd, td);
      CopiedNothing(St(), fd, td);
      SharedNothing(St(), fd, td);
      FreeNothing(St(), td);
      while k < n
        invariant 0 <= k <= n
        invariant Valid() && held == old(held) && SameOutside(old(St()), St(), td, k)
        invariant ViewOf(St()) == EagerCopy(old(ViewOf(St())), fd, td, k, 0)
        invariant CleanCopied(old(St()), St(), fd, td, k, 0) && DirsShared(old(St()), St(), fd, td, k)
        invariant |Free(St())| >= |Free(old(St()))| - k
      {
        ok := CopyNext(fd, td, n, k, old(St()));
        if !ok {
          CopiedOutside(old(St()), St(), fd, td, k, n);
          return;
        }
        k := k + 1;
      }
      CopiedOutside(old(St()), St(), fd, td, n, n);
      ok := true;
    }
  
    // ---- write faults ----

    /** A present page is made writable: in place when this entry is its only
        user, on a fresh copy otherwise.  False is the out-of-memory exit. */
    method UnWpPage(d: int, i: int) returns (ok: bool)
      requires Valid() && User(d, i) && At(St(), d, i).Present?
      modifies `held, memMap, tables, pages
      ensures Valid() && held == old(held) && St().dir == old(St()).dir
      ensures ViewOf(St()) == old(ViewOf(St()))
      ensures ok ==> At(St(), d, i).Present? && At(St(), d, i).writable
      ensures OtherEntries(old(St()), St(), d, i) && EntryVerified(old(St()), St(), d, i)
      ensures ok ==> EntryUnshared(old(St()), St(), d, i)
      ensures !ok ==> St() == old(St()) && Free(St()) == {}
    {
      hide EntryVerified, PageSteps.Free, PageModel.Exact, PageModel.Exclusive, PageModel.SameOffset,
           PageModel.Protected, PageModel.ViewOf;
      hide PageSteps.SameElsewhere;
      var t := pgDir[d].frame;
      var e := tables[t][i];
      assert e == At(St(), d, i);
      if e.frame >= LOW && memMap[e.frame - LOW] == 1 {
        assert Count(St(), e.frame) == 1;
        var g := e.(writable := true);
        FlagsKeep(St(), held, d, i, g);
        AtAfterSetEntry(St(), d, i, g);
        tables[t] := tables[t][i := g];
        assert St() == SetEntry(old(St()), d, i, g);
        FlagsVerified(old(St()), St(), d, i);
        return true;
      }
      var f := GetFreePage();
      if f == 0 {
        UnchangedVerified(St(), d, i);
        return false;
      }
      ghost var m := St();
      TakeOthers(old(St()), old(held), m, f);
      CopyOutKeeps(m, held, d, i, f);
      CopyOutVerified(old(St()), old(held), m, d, i, f);
      CopyOutAt(m, d, i, f);
      if e.frame >= LOW {
        assert Count(m, e.frame) == memMap[e.frame - LOW];
        memMap[e.frame - LOW] := memMap[e.frame - LOW] - 1;
      }
      tables[t] := tables[t][i := Present(f, true, false)];
      pages[f] := pages[e.frame];
      held := Unhold(held, f);
      assert St() == CopyOut(m, d, i, f);
      assert held == old(held);
      ok := true;
    }

    /** write_verify(address): un-protects a present, read-only page. */
    method WriteVerify(d: int, i: int) returns (ok: bool)
      requires Valid() && User(d, i)
      modifies `held, memMap, tables, pages
      ensures Valid() && held == old(held) && St().dir == old(St()).dir
      ensures ViewOf(St()) == old(ViewOf(St()))
      ensures ok ==> (At(St(), d, i).Present? ==> At(St(), d, i).writable)
      ensures !ok ==> St() == old(St()) && Free(St()) == {}
      ensures OtherEntries(old(St()), St(), d, i) && EntryVerified(old(St()), St(), d, i)
      ensures ok ==> EntryUnshared(old(St()), St(), d, i)
    {
      hide EntryVerified;
      hide PageModel.Exact, PageModel.Exclusive, PageModel.SameOffset, PageModel.ViewOf;
      ok := true;
      UnchangedVerified(St(), d, i);
      if pgDir[d] == NoTable {
        return;
      }
      var e := tables[pgDir[d].frame][i];
      assert e == At(St(), d, i);
      if e.Present? && !e.writable {
        ok := UnWpPage(d, i);
      }
    }

    /** verify_area: every present page touched by [start, start + size) ends up
        writable; no program sees a difference.  `start` is a linear address. */
    method VerifyArea(start: int, size: int) returns (ok: bool)
      requires Valid() && 0 <= size && DIRS_PER_TASK * TABLE_SPAN <= start && start + size <= NR_DIRS * TABLE_SPAN
      modifies `held, memMap, tables, pages
      ensures Valid() && held == old(held) && ViewOf(St()) == old(ViewOf(St()))
      ensures St().dir == old(St()).dir
      ensures ok ==> forall a :: start <= a < start + size ==> WritableIfPresent(St(), a / PAGE_SIZE)
      ensures Verified(old(St()), St(), FirstPage(start), LastPage(start, size))
      ensures ok && OneSlot(FirstPage(start), LastPage(start, size)) ==>
                Unshared(old(St()), St(), FirstPage(start), LastPage(start, size))
      ensures !ok ==> Free(St()) == {}
    {
      hide PageModel.Inv, PageModel.ViewOf, Verified, EntryVerified, OtherEntries, Unshared, EntryUnshared;
      var left := size + start % PAGE_SIZE;
      var page := start / PAGE_SIZE;
      ok := true;
      ghost var first, last := FirstPage(start), LastPage(start, size);
      VerifiedNothing(St(), page);
      while left > 0
        invariant Verified(old(St()), St(), first, page)
        invariant OneSlot(first, last) ==> Unshared(old(St()), St(), first, page)
        invariant Valid() && held == old(held) && ViewOf(St()) == old(ViewOf(St()))
        invariant St().dir == old(St()).dir
        invariant left == size + start - page * PAGE_SIZE && left > -PAGE_SIZE
        invariant start / PAGE_SIZE <= page
        invariant forall q :: start / PAGE_SIZE <= q < page ==> WritableIfPresent(St(), q)
      {
        ghost var m := St();
        ok := WriteVerify(page / ENTRIES, page % ENTRIES);
        if !ok {
          VerifiedWiden(old(St()), m, first, page, last);
          return;
        }
        VerifiedMore(old(St()), held, m, St(), first, page);
        if OneSlot(first, last) {
          UnsharedMore(old(St()), held, m, St(), first, page);
        }
        WritableStays(m, St(), page, start / PAGE_SIZE);
        left, page := left - PAGE_SIZE, page + 1;
      }
      assert page == last;
      forall a | start <= a < start + size
        ensures WritableIfPresent(St(), a / PAGE_SIZE)
      {
        assert start / PAGE_SIZE <= a / PAGE_SIZE < page;
      }
    }

    /** A user store.  The processor marks the entry dirty; a read-only page faults
        into do_wp_page first and the store is retried. */
    method UserStore(d: int, i: int, off: int, value: int) returns (ok: bool)
      requires Valid() && User(d, i) && At(St(), d, i).Present? && 0 <= off < PAGE_SIZE
      modifies `held, memMap, tables, pages
      ensures Valid() && held == old(held) && St().dir == old(St()).dir
      ensures (d, i) in old(ViewOf(St()))
      ensures ViewOf(St()) == if ok then old(ViewOf(St()))[(d, i) := old(ViewOf(St()))[(d, i)][off := value]]
        else old(ViewOf(St()))
      ensures SameDirs(old(St()), St())
      ensures CleanKept(old(St()), St()) && (ok ==> !Clean(St(), d, i))
      ensures !ok ==> St() == old(St()) && Free(St()) == {}
    {
      hide EntryVerified, EntryUnshared, OtherEntries, CleanKept, Clean, CleanCopied, PageSteps.Free, PageModel.Exact,
           PageModel.Exclusive, PageModel.SameOffset, PageModel.ViewOf,
           PageSteps.SameElsewhere;
      SeenIff(St(), held, d, i) by { assert Visible(d, i); }
      ok := true;
      assert At(St(), d, i) == tables[pgDir[d].frame][i];
      UnchangedVerified(St(), d, i);
      if !tables[pgDir[d].frame][i].writable {
        ok := UnWpPage(d, i);
        if !ok {
          CopiedNothing(St(), d, d);
          return;
        }
      }
      ghost var m := St();
      var t := pgDir[d].frame;
      var e := tables[t][i];
      assert e == At(m, d, i) && e.writable;
      SeenIff(m, held, d, i);
      FlagsKeep(m, held, d, i, e.(dirty := true));
      AtAfterSetEntry(m, d, i, e.(dirty := true));
      tables[t] := tables[t][i := e.(dirty := true)];
      ghost var m1 := St();
      assert m1 == SetEntry(m, d, i, e.(dirty := true));
      assert Visible(d, i);
      StoreKeeps(m1, held, d, i, m1.data[e.frame][off := value]);
      pages[e.frame] := pages[e.frame][off := value];
      assert St() == SetData(m1, e.frame, m1.data[e.frame][off := value]);
      StoredOthers(m, m1, St(), d, i);
      DirtiedClean(old(St()), m, St(), d, i);
    }
  
    /** put_fs_byte and the kernel's own stores: no fault, whatever the R/W bit says.
        `guarded` could be checked beforehand, `apart` is the exact condition. */
    method KernelStore(d: int, i: int, off: int, value: int) returns (guarded: bool, ghost apart: bool)
      requires Valid() && Visible(d, i) && At(St(), d, i).Present? && 0 <= off < PAGE_SIZE
      modifies tables, pages
      ensures Valid() && St().dir == old(St()).dir
      ensures old(Seen(St(), d, i)) && St() == Stored(old(St()), d, i, off, value)
      ensures guarded == Guarded(old(St()), d, i) && (guarded ==> apart)
      ensures apart == old(Alone(St(), d, i) || PageAt(St(), d, i)[off] == value)
      ensures (d, i) in old(ViewOf(St()))
      ensures apart <==> ViewOf(St()) == old(ViewOf(St()))[(d, i) := old(ViewOf(St()))[(d, i)][off := value]]
    {
      hide PageModel.Exact, PageModel.Exclusive, PageModel.SameOffset, PageModel.Protected, PageModel.ViewOf;
      hide KernelStores.Alone;
      ghost var m := St();
      SeenIff(m, held, d, i);
      ViewAt(m, (d, i));
      var t := pgDir[d].frame;
      var e := tables[t][i];
      assert e == At(m, d, i);
      guarded := e.frame >= LOW && memMap[e.frame - LOW] == 1;
      apart := Alone(m, d, i) || PageAt(m, d, i)[off] == value;
      if guarded {
        assert Count(m, e.frame) == memMap[e.frame - LOW];
        LowIsKernel(m, d, i);
        GuardIsAlone(m, held, d, i);
      }
      StoredKeeps(m, held, d, i, off, value);
      KernelStoreEager(m, held, d, i, off, value);
      tables[t] := tables[t][i := e.(dirty := true)];
      pages[e.frame] := pages[e.frame][off := value];
      assert St() == Stored(m, d, i, off, value);
    }

    // ---- putting pages under addresses ----

    /** The page-table half of put_page and try_to_share: makes sure directory
        entry `d` has a table. */
    method EnsureTable(d: int) returns (ok: bool)
      requires Valid() && DIRS_PER_TASK <= d < NR_DIRS
      modifies `held, memMap, pgDir, tables, pages
      ensures Valid() && held == old(held) && ViewOf(St()) == old(ViewOf(St()))
      ensures !ok ==> St() == old(St()) && Free(St()) == {}
      ensures ok ==> St().dir[d].Table? && St().dir == old(St()).dir[d := St().dir[d]]
      ensures old(St()).dir[d].Table? ==> ok && St() == old(St())
      ensures SameEntries(old(St()), St())
      ensures forall f :: LOW <= f < FRAMES && old(Kept(held, f) > 0) ==> Count(St(), f) == old(Count(St(), f))
      ensures forall f :: LOW <= f < FRAMES && old(Kept(held, f) > 0) ==> pages[f] == old(pages[f])
    {
      hide PageModel.Exact, PageModel.Exclusive, PageModel.SameOffset, PageModel.Protected, PageModel.ViewOf;
      hide PageSteps.SameElsewhere;
      if pgDir[d].Table? {
        return true;
      }
      var t := GetFreePage();
      if t == 0 {
        return false;
      }
      ghost var m := St();
      HeldIsCounted(old(St()), old(held));
      TakeOthers(old(St()), old(held), m, t);
      InstallKeeps(m, held, d, t);
      pgDir[d] := Table(t);
      held := Unhold(held, t);
      assert St() == Install(m, d, t);
      assert held == old(held);
      InstallEntries(m, d, t);
      ok := true;
    }

    /** put_page(page, address) for a page the kernel holds and an address with no
        page; false when there is no room for a page table. */
    method PutPage(f: int, d: int, i: int) returns (ok: bool)
      requires Valid() && User(d, i) && At(St(), d, i) == Absent
      requires LOW <= f < FRAMES && Count(St(), f) == 1 == Kept(held, f)
      modifies `held, memMap, pgDir, tables, pages
      ensures Valid() && OnlyDir(old(St()), St(), d) && OtherEntries(old(St()), St(), d, i)
      ensures held == if ok then Unhold(old(held), f) else old(held)
      ensures ViewOf(St()) == if ok then old(ViewOf(St()))[(d, i) := old(pages[f])] else old(ViewOf(St()))
      ensures !ok ==> St() == old(St()) && Free(St()) == {}
    {
      hide PageModel.Exact, PageModel.Exclusive, PageModel.SameOffset, PageModel.Protected, PageModel.ViewOf;
      hide PageSteps.SameElsewhere, PageSteps.Free;
      ok := EnsureTable(d);
      if !ok {
        return;
      }
      ghost var m := St();
      assert Visible(d, i) && At(m, d, i) == Absent;
      MapHeldKeeps(m, held, d, i, f);
      AtAfterSetEntry(m, d, i, Present(f, true, false));
      tables[pgDir[d].frame] := tables[pgDir[d].frame][i := Present(f, true, false)];
      held := Unhold(held, f);
      assert St() == MapHeld(m, d, i, f);
    }

    /** A free page, filled with what it is to show; 0 means none. */
    method FilledPage(contents: Page) returns (f: int)
      requires Valid()
      modifies `held, memMap, tables, pages
      ensures Valid() && ViewOf(St()) == old(ViewOf(St())) && SameEntries(old(St()), St()) && St().dir == old(St()).dir
      ensures f == 0 ==> St() == old(St()) && held == old(held) && Free(St()) == {}
      ensures f != 0 ==> LOW <= f < FRAMES && held == Hold(old(held), f) && Count(St(), f) == 1 == Kept(held, f)
      ensures f != 0 ==> old(Kept(held, f)) == 0 && pages[f] == contents
      ensures f != 0 ==> f in Free(old(St())) && Free(St()) == Free(old(St())) - {f}
    {
      hide PageModel.Exact, PageModel.Exclusive, PageModel.SameOffset, PageModel.Protected, PageModel.ViewOf;
      hide PageSteps.SameElsewhere, PageSteps.Free;
      f := GetFreePage();
      if f == 0 {
        return;
      }
      ghost var m := St();
      TakeOthers(old(St()), old(held), m, f);
      TakeFree(old(St()), f);
      FillHeldKeeps(m, held, f, contents);
      pages[f] := contents;
      SameCountsFree(m, St());
      assert St() == SetData(m, f, contents);
    }

    /** A fresh page with the given contents at an address that has none: the end
        of get_empty_page and of do_no_page.  False is the out-of-memory exit, taken
        after the unused page has been given back. */
    method NewPage(d: int, i: int, contents: Page) returns (ok: bool)
      requires Valid() && User(d, i) && At(St(), d, i) == Absent
      modifies `held, memMap, pgDir, tables, pages
      ensures Valid() && held == old(held) && OnlyDir(old(St()), St(), d) && CleanBut(old(St()), St(), d, i)
      ensures ViewOf(St()) == if ok then old(ViewOf(St()))[(d, i) := contents] else old(ViewOf(St()))
      ensures !ok ==> CleanKept(old(St()), St())
      ensures !ok ==> |Free(old(St()))| <= 1
    {
      hide PageModel.Inv, PageModel.ViewOf, PageSteps.SameElsewhere, PageSteps.Free, CleanKept, CleanBut;
      var f := FilledPage(contents);
      OthersClean(old(St()), St(), d, i);
      SameEntriesClean(old(St()), St());
      if f == 0 {
        return false;
      }
      assert Visible(d, i);
      ok := PutPage(f, d, i);
      if !ok {
        OnlyOne(Free(old(St())), f);
        GiveBackKeeps(St(), held, f);
        FreePage(f);
        held := Unhold(held, f);
        SameEntriesClean(old(St()), St());
      }
      OthersClean(old(St()), St(), d, i);
      assert held == old(held);
    }

    /** The end of try_to_share: write-protect the giver's entry and copy it. */
    method ShareBoth(fd: int, td: int, i: int)
      requires Valid() && User(fd, i) && User(td, i) && fd != td && fd % DIRS_PER_TASK == td % DIRS_PER_TASK
      requires At(St(), fd, i).Present? && LOW <= At(St(), fd, i).frame && pgDir[td].Table? && At(St(), td, i) == Absent
      modifies memMap, tables
      ensures Valid() && St().dir == old(St()).dir && OnlyDir(old(St()), St(), td)
      ensures ViewOf(St()) == EagerEntry(old(ViewOf(St())), fd, td, i) && EntryCopied(old(St()), St(), fd, td, i)
    {
      hide EntryCopied;
      hide PageModel.Exact, PageModel.Exclusive, PageModel.SameOffset, PageModel.Protected, PageModel.ViewOf;
      hide PageSteps.SameElsewhere;
      ghost var m := St();
      SeenIff(m, held, fd, i) by { assert Visible(fd, i); }
      ShareKeeps(m, held, fd, td, i);
      ShareClean(m, held, fd, td, i);
      var e := tables[pgDir[fd].frame][i];
      assert e == At(m, fd, i);
      var ro := e.(writable := false);
      tables[pgDir[fd].frame] := tables[pgDir[fd].frame][i := ro];
      tables[pgDir[td].frame] := tables[pgDir[td].frame][i := ro];
      assert Count(m, e.frame) == memMap[e.frame - LOW];
      memMap[e.frame - LOW] := memMap[e.frame - LOW] + 1;
      assert St() == Share(m, fd, td, i) by {
        assert pgDir[fd].frame != pgDir[td].frame;
      }
    }

    /** try_to_share for the address `page` pages into both slots: 1 when the
        receiver now maps the giver's clean page, 0 when that is not possible, -1 out
        of memory. */
    method TryToShare(giver: int, receiver: int, page: int) returns (r: int)
      requires Valid() && 1 <= giver < NR_TASKS && 1 <= receiver < NR_TASKS && giver != receiver
      requires 0 <= page < DIRS_PER_TASK * ENTRIES
      requires At(St(), DirOf(receiver, page), page % ENTRIES) == Absent
      modifies `held, memMap, pgDir, tables, pages
      ensures Valid() && held == old(held) && OnlyDir(old(St()), St(), DirOf(receiver, page))
      ensures -1 <= r <= 1
      ensures CleanBut(old(St()), St(), DirOf(receiver, page), page % ENTRIES)
      ensures r == 1 ==> (DirOf(giver, page), page % ENTRIES) in old(ViewOf(St()))
      ensures ViewOf(St()) == if r == 1
        then EagerEntry(old(ViewOf(St())), DirOf(giver, page), DirOf(receiver, page), page % ENTRIES)
        else old(ViewOf(St()))
      ensures r <= 0 ==> St() == old(St())
      ensures r == 0 <==> !Shareable(old(St()), DirOf(giver, page), page % ENTRIES)
      ensures r == -1 ==> Free(St()) == {}
    {
      hide PageModel.Exact, PageModel.Exclusive, PageModel.SameOffset, PageModel.Protected, PageModel.ViewOf;
      hide PageSteps.SameElsewhere, PageSteps.Free, CleanBut, EntryCopied;
      var fd, td, i := DirOf(giver, page), DirOf(receiver, page), page % ENTRIES;
      OthersClean(St(), St(), td, i);
      if pgDir[fd] == NoTable {
        return 0;
      }
      var e := tables[pgDir[fd].frame][i];
      assert e == At(St(), fd, i) && Visible(fd, i);
      if !e.Present? || e.dirty || e.frame < LOW {
        return 0;
      }
      SeenIff(St(), held, fd, i);
      var ok := EnsureTable(td);
      if !ok {
        return -1;
      }
      assert Visible(td, i);
      assert At(St(), fd, i) == e;
      SeenIff(St(), held, fd, i);
      ghost var m := St();
      ShareBoth(fd, td, i);
      SharedClean(old(St()), m, St(), fd, td, i);
      r := 1;
    }
  }

  lemma LowIsKernel(m: Mem, d: int, i: int)
    requires Shape(m) && FramesInRange(m) && Visible(d, i) && At(m, d, i).Present? && At(m, d, i).frame >= LOW
    ensures User(d, i)
  {
  }

  // ---- facts about the views used by the loops above ----

  lemma OnlyOne(s: set<int>, f: int)
    requires f in s && s - {f} == {}
    ensures |s| == 1
  {
    assert s == {f};
  }

  lemma FreeRow(m0: Mem, m: Mem, r: Mem, d: int, nr: int)
    requires Shape(m0) && Shape(m) && Shape(r) && DIRS_PER_TASK <= d < NR_DIRS && 0 <= nr < ENTRIES
    requires SameOutside(m0, m, d, 1) && SameElsewhere(m, r, d, nr) && r.dir == m.dir
    requires forall j :: 0 <= j < nr ==> At(m, d, j) == Absent
    ensures SameOutside(m0, r, d, 1)
    ensures forall j :: 0 <= j < nr ==> At(r, d, j) == Absent
  {
    forall a, b | Visible(a, b) && !(d <= a < d + 1)
      ensures SameFrame(At(r, a, b), At(m0, a, b))
    {
      assert SameFrame(At(r, a, b), At(m, a, b)) && SameFrame(At(m, a, b), At(m0, a, b));
    }
    forall j | 0 <= j < nr
      ensures At(r, d, j) == Absent
    {
      assert Visible(d, j);
      assert SameFrame(At(r, d, j), At(m, d, j));
    }
  }

  lemma OutsideGrows(m0: Mem, m: Mem, r: Mem, d0: int, k: int)
    requires Shape(m0) && Shape(m) && Shape(r) && 0 <= k
    requires SameOutside(m0, m, d0, k) && SameOutside(m, r, d0 + k, 1)
    ensures SameOutside(m0, r, d0, k + 1)
    ensures NoTables(m, d0, k) && (0 <= d0 + k < NR_DIRS ==> r.dir[d0 + k] == NoTable) ==> NoTables(r, d0, k + 1)
  {
    forall a, b | Visible(a, b) && !(d0 <= a < d0 + k + 1)
      ensures SameFrame(At(r, a, b), At(m0, a, b))
    {
      assert SameFrame(At(r, a, b), At(m, a, b)) && SameFrame(At(m, a, b), At(m0, a, b));
    }
  }

  lemma TablesInRange(m: Mem, held: seq<nat>, d: int)
    requires Inv(m, held) && DIRS_PER_TASK <= d < NR_DIRS && m.dir[d].Table?
    ensures LOW <= m.dir[d].frame < FRAMES && Count(m, m.dir[d].frame) == 1
  {
  }

  lemma SameOutsideDrop(m0: Mem, m: Mem, d: int)
    requires Shape(m0) && Shape(m) && DIRS_PER_TASK <= d < NR_DIRS && m.dir[d].Table? && LOW <= m.dir[d].frame
    requires Count(m, m.dir[d].frame) > 0 && SameOutside(m0, m, d, 1)
    ensures SameOutside(m0, DropTable(m, d), d, 1)
  {
    var r := DropTable(m, d);
    forall a, b | Visible(a, b) && !(d <= a < d + 1)
      ensures SameFrame(At(r, a, b), At(m0, a, b))
    {
      assert At(r, a, b) == At(m, a, b);
    }
  }

  lemma WithoutNext(v: View, d: int, nr: int)
    ensures Without(v, d, 0, nr) - {(d, nr)} == Without(v, d, 0, nr + 1)
  {
  }

  lemma WithoutRow(m: Mem, d: int)
    requires Shape(m)
    ensures Without(ViewOf(m), d, 0, ENTRIES) == Without(ViewOf(m), d, 1, 0)
  {
  }

  lemma SameOutsideWiden(m: Mem, d: int)
    requires Shape(m)
    ensures SameOutside(m, m, d, 1)
  {
  }

  lemma FreeNothing(m: Mem, d: int)
    requires Shape(m)
    ensures Without(ViewOf(m), d, 0, 0) == ViewOf(m) && SameOutside(m, m, d, 0) && NoTables(m, d, 0)
  {
  }

  lemma NoTablesAt(m: Mem, d0: int, n: int, k: int)
    requires Shape(m) && 0 <= d0 && 0 <= k < n && d0 + n <= NR_DIRS
    ensures NoTables(m, d0, n) ==> m.dir[d0 + k] == NoTable
  {
  }

  lemma WithoutMore(v: View, d0: int, k: int)
    requires 0 <= k
    ensures Without(Without(v, d0, k, 0), d0 + k, 1, 0) == Without(v, d0, k + 1, 0)
  {
  }

  lemma WithoutEmpty(m: Mem, d: int)
    requires Shape(m) && 0 <= d < NR_DIRS && m.dir[d] == NoTable
    ensures Without(ViewOf(m), d, 1, 0) == ViewOf(m)
  {
    assert forall q :: q in ViewOf(m) ==> q.0 != d;
  }

  // ---- facts about copies ----

  ghost predicate EmptyRow(m: Mem, d: int)
    requires Shape(m) && 0 <= d < NR_DIRS
  {
    forall j :: 0 <= j < ENTRIES ==> At(m, d, j) == Absent
  }

  ghost function EagerEntry(v: View, fd: int, td: int, i: int): View {
    if (fd, i) in v then v[(td, i) := v[(fd, i)]] else v
  }

  lemma SeenIff(m: Mem, held: seq<nat>, d: int, i: int)
    requires Inv(m, held) && Visible(d, i)
    ensures (d, i) in ViewOf(m) <==> At(m, d, i).Present?
    ensures (d, i) in ViewOf(m) ==> At(m, d, i).frame < FRAMES && ViewOf(m)[(d, i)] == m.data[At(m, d, i).frame]
  {
  }

  lemma SameElsewhereSelf(m: Mem, d: int, i: int)
    requires Shape(m)
    ensures SameElsewhere(m, m, d, i)
  {
  }

  lemma CopyNothing(m: Mem, fd: int, td: int)
    requires Shape(m)
    ensures EagerCopy(ViewOf(m), fd, td, 0, 0) == ViewOf(m)
  {
  }

  lemma CopyRow(m0: Mem, m: Mem, r: Mem, td: int, i: int)
    requires Shape(m0) && Shape(m) && Shape(r) && DIRS_PER_TASK <= td < NR_DIRS && 0 <= i < ENTRIES
    requires SameOutside(m0, m, td, 1) && SameElsewhere(m, r, td, i) && r.dir == m.dir
    requires forall j :: i <= j < ENTRIES ==> At(m, td, j) == Absent
    ensures SameOutside(m0, r, td, 1)
    ensures forall j :: i < j < ENTRIES ==> At(r, td, j) == Absent
  {
    forall a, b | Visible(a, b) && !(td <= a < td + 1)
      ensures SameFrame(At(r, a, b), At(m0, a, b))
    {
      assert SameFrame(At(r, a, b), At(m, a, b)) && SameFrame(At(m, a, b), At(m0, a, b));
    }
    forall j | i < j < ENTRIES
      ensures At(r, td, j) == Absent
    {
      assert Visible(td, j);
      assert SameFrame(At(r, td, j), At(m, td, j));
    }
  }

  /** Every key of a view is a visible entry. */
  lemma ViewKeys(m: Mem, q: (int, int))
    requires Shape(m) && q in ViewOf(m)
    ensures 0 <= q.0 < NR_DIRS && 0 <= q.1 < ENTRIES && Visible(q.0, q.1) && m.dir[q.0].Table?
      && At(m, q.0, q.1).Present?
  {
  }

  lemma EagerAt(v: View, fd: int, td: int, n: int, part: int, q: (int, int))
    ensures var c := if InCopy(q.0, q.1, td, n, part) then (fd + q.0 - td, q.1) else q;
      && (q in EagerCopy(v, fd, td, n, part) <==> 0 <= q.0 < NR_DIRS && 0 <= q.1 < ENTRIES && c in v)
      && (q in EagerCopy(v, fd, td, n, part) ==> EagerCopy(v, fd, td, n, part)[q] == v[c])
  {
  }

  lemma EagerNext(m: Mem, fd: int, td: int, i: int)
    requires Shape(m) && 0 <= td < NR_DIRS && fd != td && 0 <= i < ENTRIES && EmptyRow(m, td)
    ensures EagerEntry(EagerCopy(ViewOf(m), fd, td, 0, i), fd, td, i) == EagerCopy(ViewOf(m), fd, td, 0, i + 1)
  {
    hide EagerCopy, PageModel.ViewOf;
    var v := ViewOf(m);
    var a, b := EagerEntry(EagerCopy(v, fd, td, 0, i), fd, td, i), EagerCopy(v, fd, td, 0, i + 1);
    EagerAt(v, fd, td, 0, i, (fd, i));
    if (fd, i) in v {
      ViewKeys(m, (fd, i));
    }
    if (td, i) in v {
      ViewKeys(m, (td, i));
    }
    forall q: (int, int)
      ensures (q in a <==> q in b) && (q in a ==> a[q] == b[q])
    {
      EagerAt(v, fd, td, 0, i, q);
      EagerAt(v, fd, td, 0, i + 1, q);
    }
  }

  lemma EagerRow(m: Mem, fd: int, td: int, nr: int)
    requires Shape(m) && 0 <= td < NR_DIRS && EmptyRow(m, td)
    requires (fd == 0 && nr == KERNEL_ENTRIES) || nr == ENTRIES
    ensures EagerCopy(ViewOf(m), fd, td, 0, nr) == EagerCopy(ViewOf(m), fd, td, 1, 0)
  {
    hide EagerCopy, PageModel.ViewOf;
    var v := ViewOf(m);
    var a, b := EagerCopy(v, fd, td, 0, nr), EagerCopy(v, fd, td, 1, 0);
    forall q: (int, int)
      ensures (q in a <==> q in b) && (q in a ==> a[q] == b[q])
    {
      EagerAt(v, fd, td, 0, nr, q);
      EagerAt(v, fd, td, 1, 0, q);
      if q in v {
        ViewKeys(m, q);
      }
      if (fd, q.1) in v {
        ViewKeys(m, (fd, q.1));
      }
    }
  }

  lemma CopyAbsent(m: Mem, fd: int, td: int)
    requires Shape(m) && 0 <= fd < NR_DIRS && 0 <= td < NR_DIRS && m.dir[fd] == NoTable && m.dir[td] == NoTable
    ensures EagerCopy(ViewOf(m), fd, td, 1, 0) == ViewOf(m)
  {
    assert forall q :: q in ViewOf(m) ==> q.0 != td && q.0 != fd && 0 <= q.0 < NR_DIRS && 0 <= q.1 < ENTRIES;
    EagerAbsent(ViewOf(m), fd, td);
  }

  lemma EagerAbsent(v: View, fd: int, td: int)
    requires forall q :: q in v ==> q.0 != td && q.0 != fd && 0 <= q.0 < NR_DIRS && 0 <= q.1 < ENTRIES
    ensures EagerCopy(v, fd, td, 1, 0) == v
  {
    var e := EagerCopy(v, fd, td, 1, 0);
    forall q: (int, int)
      ensures q in e <==> q in v
      ensures q in v ==> e[q] == v[q]
    {
      assert (q.0, q.1) == q;
      assert (fd + q.0 - td, q.1) in v ==> q.0 != td;
    }
  }

  lemma OutsideInstall(m0: Mem, m: Mem, r: Mem, td: int)
    requires Shape(m0) && Shape(m) && Shape(r) && 0 <= td < NR_DIRS
    requires SameElsewhere(m0, m, -1, -1) && m.dir == m0.dir
    requires SameElsewhere(m, r, -1, -1) && r.dir == m.dir[td := r.dir[td]]
    ensures SameOutside(m0, r, td, 1)
  {
    forall a, b | Visible(a, b) && !(td <= a < td + 1)
      ensures SameFrame(At(r, a, b), At(m0, a, b))
    {
      assert SameFrame(At(r, a, b), At(m, a, b)) && SameFrame(At(m, a, b), At(m0, a, b));
    }
  }

  lemma OutsideTrans(m0: Mem, m: Mem, r: Mem, d: int)
    requires Shape(m0) && Shape(m) && Shape(r) && SameOutside(m0, m, d, 1) && SameOutside(m, r, d, 1)
    ensures SameOutside(m0, r, d, 1)
  {
    forall a, b | Visible(a, b) && !(d <= a < d + 1)
      ensures SameFrame(At(r, a, b), At(m0, a, b))
    {
      assert SameFrame(At(r, a, b), At(m, a, b)) && SameFrame(At(m, a, b), At(m0, a, b));
    }
  }

  lemma OutsideDir(m0: Mem, m: Mem, d0: int, k: int)
    requires Shape(m0) && Shape(m) && 0 <= d0 && 0 <= k && d0 + k < NR_DIRS && SameOutside(m0, m, d0, k)
    ensures m.dir[d0 + k] == m0.dir[d0 + k]
  {
  }

  lemma OutsideWider(m0: Mem, m: Mem, d0: int, k: int, n: int)
    requires Shape(m0) && Shape(m) && 0 <= k <= n && SameOutside(m0, m, d0, k)
    ensures SameOutside(m0, m, d0, n)
  {
  }

  lemma EagerMore(m: Mem, fd: int, td: int, n: int, k: int)
    requires Shape(m) && 0 <= k < n && 0 <= fd && 0 <= td && fd + n <= NR_DIRS && td + n <= NR_DIRS
    requires fd + n <= td || td + n <= fd
    ensures EagerCopy(EagerCopy(ViewOf(m), fd, td, k, 0), fd + k, td + k, 1, 0)
      == EagerCopy(ViewOf(m), fd, td, k + 1, 0)
  {
    hide EagerCopy, PageModel.ViewOf;
    var v := ViewOf(m);
    var e := EagerCopy(v, fd, td, k, 0);
    var a, b := EagerCopy(e, fd + k, td + k, 1, 0), EagerCopy(v, fd, td, k + 1, 0);
    forall q: (int, int)
      ensures (q in a <==> q in b) && (q in a ==> a[q] == b[q])
    {
      EagerAt(e, fd + k, td + k, 1, 0, q);
      EagerAt(v, fd, td, k + 1, 0, q);
      EagerAt(v, fd, td, k, 0, q);
      EagerAt(v, fd, td, k, 0, (fd + k, q.1));
      if (fd + k, q.1) in v {
        ViewKeys(m, (fd + k, q.1));
      }
    }
  }

  // ---- the frames of a copy are the frames copied ----

  /** How much of a directory's table copy_page_tables copies. */
  function RowLen(fd: int): int {
    if fd == 0 then KERNEL_ENTRIES else ENTRIES
  }

  /** The first `n` entries of directory `td` map what those of `fd` mapped. */
  ghost predicate RowShared(m: Mem, r: Mem, fd: int, td: int, n: int)
    requires Shape(m) && Shape(r)
  {
    0 <= fd < NR_DIRS && 0 <= td < NR_DIRS && n <= ENTRIES
      && forall j :: 0 <= j < n ==> SameFrame(At(r, td, j), At(m, fd, j))
  }

  /** A fork copies no page: the `n` directories from `td` on map the frames that
      those from `fd` on mapped. */
  ghost predicate DirsShared(m: Mem, r: Mem, fd: int, td: int, n: int)
    requires Shape(m) && Shape(r)
  {
    forall a :: td <= a < td + n ==> DirShared(m, r, fd, td, a)
  }

  ghost predicate DirShared(m: Mem, r: Mem, fd: int, td: int, a: int)
    requires Shape(m) && Shape(r)
  {
    RowShared(m, r, fd + a - td, a, RowLen(fd + a - td))
  }

  lemma SharedNothing(m: Mem, fd: int, td: int)
    requires Shape(m)
    ensures 0 <= fd < NR_DIRS && 0 <= td < NR_DIRS ==> RowShared(m, m, fd, td, 0)
    ensures DirsShared(m, m, fd, td, 0)
  {
  }

  lemma SharedAbsent(m: Mem, fd: int, td: int)
    requires Shape(m) && 0 <= fd < NR_DIRS && 0 <= td < NR_DIRS && m.dir[fd] == NoTable && m.dir[td] == NoTable
    ensures RowShared(m, m, fd, td, RowLen(fd))
  {
  }

  lemma SharedNext(m0: Mem, m: Mem, r: Mem, fd: int, td: int, i: int)
    requires Shape(m0) && Shape(m) && Shape(r) && RowShared(m0, m, fd, td, i) && 0 <= i < ENTRIES
    requires DIRS_PER_TASK <= td && fd != td && Visible(fd, i) && SameOutside(m0, m, td, 1)
    requires SameElsewhere(m, r, td, i) && SameFrame(At(r, td, i), At(m, fd, i))
    ensures RowShared(m0, r, fd, td, i + 1)
  {
    assert SameFrame(At(m, fd, i), At(m0, fd, i));
    forall j | 0 <= j < i + 1
      ensures SameFrame(At(r, td, j), At(m0, fd, j))
    {
      assert Visible(td, j);
      assert j < i ==> SameFrame(At(r, td, j), At(m, td, j));
    }
  }

  lemma SharedLater(m0: Mem, m: Mem, r: Mem, fd: int, td: int)
    requires Shape(m0) && Shape(m) && Shape(r) && RowShared(m, r, fd, td, RowLen(fd)) && fd != td
    requires SameOutside(m0, m, td, 1) && (fd == 0 || DIRS_PER_TASK <= fd < NR_DIRS)
    ensures RowShared(m0, r, fd, td, RowLen(fd))
  {
    forall j | 0 <= j < RowLen(fd)
      ensures SameFrame(At(r, td, j), At(m0, fd, j))
    {
      assert Visible(fd, j);
      assert SameFrame(At(m, fd, j), At(m0, fd, j));
    }
  }

  lemma SharedMore(m0: Mem, m: Mem, r: Mem, fd: int, td: int, n: int, k: int)
    requires Shape(m0) && Shape(m) && Shape(r) && 0 <= k < n && (fd + n <= td || td + n <= fd)
    requires (fd == 0 && n <= 1) || (DIRS_PER_TASK <= fd && fd + n <= NR_DIRS)
    requires DIRS_PER_TASK <= td && td + n <= NR_DIRS
    requires SameOutside(m0, m, td, k) && SameOutside(m, r, td + k, 1)
    requires DirsShared(m0, m, fd, td, k) && RowShared(m, r, fd + k, td + k, RowLen(fd + k))
    ensures DirsShared(m0, r, fd, td, k + 1)
  {
    hide RowShared;
    forall a | td <= a < td + k + 1
      ensures DirShared(m0, r, fd, td, a)
    {
      if a < td + k {
        assert DirShared(m0, m, fd, td, a);
        EarlierRow(m0, m, r, fd + a - td, a, td + k);
      } else {
        LaterRow(m0, m, r, fd + k, td + k, td, k);
      }
    }
  }

  lemma EarlierRow(m0: Mem, m: Mem, r: Mem, fd: int, td: int, other: int)
    requires Shape(m0) && Shape(m) && Shape(r) && RowShared(m0, m, fd, td, RowLen(fd))
    requires SameOutside(m, r, other, 1) && DIRS_PER_TASK <= td != other
    ensures RowShared(m0, r, fd, td, RowLen(fd))
  {
    forall j | 0 <= j < RowLen(fd)
      ensures SameFrame(At(r, td, j), At(m0, fd, j))
    {
      assert Visible(td, j);
      assert SameFrame(At(r, td, j), At(m, td, j));
    }
  }

  lemma LaterRow(m0: Mem, m: Mem, r: Mem, fd: int, td: int, d0: int, k: int)
    requires Shape(m0) && Shape(m) && Shape(r) && RowShared(m, r, fd, td, RowLen(fd))
    requires SameOutside(m0, m, d0, k) && !(d0 <= fd < d0 + k) && (fd == 0 || DIRS_PER_TASK <= fd)
    ensures RowShared(m0, r, fd, td, RowLen(fd))
  {
    forall j | 0 <= j < RowLen(fd)
      ensures SameFrame(At(r, td, j), At(m0, fd, j))
    {
      assert Visible(fd, j);
      assert SameFrame(At(m, fd, j), At(m0, fd, j));
    }
  }

  // ---- facts about faults ----

  ghost predicate SameDirs(m: Mem, r: Mem) {
    m.dir == r.dir
  }

  lemma TakeOthers(m: Mem, held: seq<nat>, r: Mem, f: int)
    requires Inv(m, held) && FreeFrame(m, f) && r == Take(m, f)
    ensures SameEntries(m, r)
  {
    NoRefs(m, held, f);
    TakeAt(m, f);
  }

  /** The page with linear page number q, if mapped, is writable. */
  ghost predicate WritableIfPresent(m: Mem, q: int)
    requires Shape(m)
  {
    0 <= q < NR_DIRS * ENTRIES
      && (At(m, q / ENTRIES, q % ENTRIES).Present? ==> At(m, q / ENTRIES, q % ENTRIES).writable)
  }

  lemma WritableStays(m: Mem, r: Mem, page: int, first: int)
    requires Shape(m) && Shape(r) && DIRS_PER_TASK * ENTRIES <= first <= page < NR_DIRS * ENTRIES
    requires OtherEntries(m, r, page / ENTRIES, page % ENTRIES)
    requires forall q :: first <= q < page ==> WritableIfPresent(m, q)
    ensures forall q :: first <= q < page ==> WritableIfPresent(r, q)
  {
    forall q | first <= q < page
      ensures WritableIfPresent(r, q)
    {
      assert WritableIfPresent(m, q);
      assert Visible(q / ENTRIES, q % ENTRIES);
      assert !(q / ENTRIES == page / ENTRIES && q % ENTRIES == page % ENTRIES);
    }
  }

  /** The directory entry of a page of a slot. */
  function DirOf(slot: int, page: int): int {
    slot * DIRS_PER_TASK + page / ENTRIES
  }

  /** No directory entry but `d` changed. */
  ghost predicate OnlyDir(m: Mem, r: Mem, d: int)
    requires Shape(m) && Shape(r)
  {
    forall a :: 0 <= a < NR_DIRS && a != d ==> r.dir[a] == m.dir[a]
  }

  lemma InstallEntries(m: Mem, d: int, f: int)
    requires Shape(m) && DIRS_PER_TASK <= d < NR_DIRS && m.dir[d] == NoTable && 0 <= f < FRAMES
      && m.table[f] == EmptyTable()
    ensures SameEntries(m, Install(m, d, f))
  {
  }

  /** A held frame has a positive count, so get_free_page does not hand it out. */
  lemma HeldIsCounted(m: Mem, held: seq<nat>)
    requires Inv(m, held)
    ensures forall f :: LOW <= f < FRAMES && Kept(held, f) > 0 ==> Count(m, f) > 0
  {
  }

  lemma BootInv(m: Mem, held: seq<nat>)
    requires Shape(m) && held == m.count
    requires forall k :: 0 <= k < PAGING_PAGES ==> m.count[k] <= USED
    requires forall d :: 1 <= d < NR_DIRS ==> m.dir[d] == NoTable
    requires m.dir[0] == Table(1)
    requires forall i :: 0 <= i < KERNEL_ENTRIES && m.table[1][i].Present? ==> m.table[1][i].frame < LOW
    ensures Inv(m, held) && forall q :: q in ViewOf(m) ==> q.0 == 0
  {
    assert forall f :: Refs(m, f) == {} && TableRefs(m, f) == {};
    assert forall f :: LOW <= f < FRAMES ==> Count(m, f) == Kept(held, f);
  }
}
