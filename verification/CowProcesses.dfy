/** The task table around the page tables: fork, execve, exit, wait, page faults
    (kernel/fork.c, kernel/exit.c, do_no_page and share_page in mm/memory.c), and
    the main theorem: any run of them shows every task the memory it would have if
    fork copied every page at once. */
module CowProcesses {
  import opened PageModel
  import opened PageSteps
  import opened KernelStores
  import opened CleanPages
  import opened CowMemory

  /** `limit` is the data segment limit in bytes, `page` the frame of the task
      structure, `exec` the executable (0: none) and `endData` where its image ends. */
  datatype Task = NoTask | Task(limit: int, page: int, exec: int, endData: int, zombie: bool)

  const SLOT_SIZE: int := 0x4000000
  const KERNEL_LIMIT: int := 0xA0000

  function Extent(t: Task): int {
    if t.Task? && 0 <= t.limit then Dirs(t.limit) else 0
  }

  ghost predicate SlotsOk(m: Mem, held: seq<nat>, ts: seq<Task>)
    requires Shape(m) && |held| == PAGING_PAGES
  {
    && |ts| == NR_TASKS
    && ts[0].Task? && ts[0].limit == KERNEL_LIMIT && !ts[0].zombie
    && (forall s :: 0 <= s < NR_TASKS && ts[s].Task? ==> 0 <= ts[s].limit <= SLOT_SIZE)
    && (forall s :: 1 <= s < NR_TASKS ==> SlotClear(m, ts[s], s))
    && (forall s :: 1 <= s < NR_TASKS && ts[s].Task? ==> LOW <= ts[s].page < FRAMES && Kept(held, ts[s].page) > 0)
    && (forall s, u :: 1 <= s < u < NR_TASKS && ts[s].Task? && ts[u].Task? ==> ts[s].page != ts[u].page)
  }

  /** No page tables beyond a task's limit, none at all in a free slot or for a zombie. */
  ghost predicate SlotClear(m: Mem, t: Task, s: int)
    requires Shape(m)
  {
    var n := if t.Task? && t.zombie then 0 else Extent(t);
    0 <= n <= DIRS_PER_TASK && NoTables(m, s * DIRS_PER_TASK + n, DIRS_PER_TASK - n)
  }

  // ---- the eager world ----

  datatype World = World(view: View, task: seq<Task>)

  datatype Op =
    | Fork(parent: int, child: int)
    | Store(slot: int, page: int, off: int, value: int)
    | Fault(slot: int, page: int, image: Page)
    | Exec(slot: int, codeLimit: int, exec: int, endData: int)
    | Exit(slot: int, codeLimit: int)
    | Release(slot: int)
    | Verify(slot: int, start: int, size: int)
    | KernelStore(slot: int, page: int, off: int, value: int)

  ghost predicate Live(w: World, s: int) {
    |w.task| == NR_TASKS && 1 <= s < NR_TASKS && w.task[s].Task? && !w.task[s].zombie
  }

  ghost predicate InLimit(w: World, s: int, page: int) {
    Live(w, s) && 0 <= page < Extent(w.task[s]) * ENTRIES
  }

  function Key(s: int, page: int): (int, int) {
    (DirOf(s, page), page % ENTRIES)
  }

  /** When the kernel carries out the operation at all: a free slot to fork into,
      a mapped page to store to, an unmapped one to fault on, and so on. */
  ghost predicate Enabled(w: World, op: Op) {
    |w.task| == NR_TASKS &&
    match op
    case Fork(p, c) => (p == 0 || Live(w, p)) && 1 <= c < NR_TASKS && w.task[c].NoTask?
    case Store(s, page, off, _) => InLimit(w, s, page) && Key(s, page) in w.view && 0 <= off < PAGE_SIZE
    case Fault(s, page, _) => InLimit(w, s, page) && Key(s, page) !in w.view
    case Exec(s, code, _, _) => Live(w, s) && 0 <= code <= w.task[s].limit
    case Exit(s, code) => Live(w, s) && 0 <= code <= w.task[s].limit
    case Release(s) => 1 <= s < NR_TASKS && w.task[s].Task? && w.task[s].zombie
    case Verify(s, start, size) =>
      Live(w, s) && 0 <= size && s * SLOT_SIZE <= start && start + size <= NR_TASKS * SLOT_SIZE
    case KernelStore(s, page, off, _) =>
      (InLimit(w, s, page) || (s == 0 && 0 <= page < KERNEL_ENTRIES)) && Key(s, page) in w.view && 0 <= off < PAGE_SIZE
  }

  /** do_no_page looks for the page in the executable. */
  predicate Backed(t: Task, page: int) {
    t.Task? && t.exec != 0 && page * PAGE_SIZE < t.endData
  }

  /** The page do_no_page builds when nobody shares one: zeros past the image, the
      executable's bytes inside it, and zeros from `endData` on. */
  function Demand(t: Task, page: int, image: Page): Page {
    if !Backed(t, page) then ZeroPage()
    else seq(PAGE_SIZE, k requires 0 <= k < PAGE_SIZE => if page * PAGE_SIZE + k < t.endData then image[k] else 0)
  }

  /** One byte of one page. */
  ghost function WithByte(v: View, k: (int, int), off: int, value: int): View
    requires k in v && 0 <= off < PAGE_SIZE
  {
    v[k := v[k][off := value]]
  }

  /** What the operation means when fork copies eagerly.  `r` is the outcome: 0 done,
      negative failed (out of memory), positive the slot a faulting task shares with. */
  ghost function EagerStep(w: World, op: Op, r: int): World
    requires Enabled(w, op)
  {
    if r < 0 then w else
    match op
    case Fork(p, c) => World(EagerCopy(w.view, p * DIRS_PER_TASK, c * DIRS_PER_TASK, Extent(w.task[p]), 0),
      w.task[c := w.task[p]])
    case Store(s, page, off, v) => World(WithByte(w.view, Key(s, page), off, v), w.task)
    case Fault(s, page, image) =>
      if r == 0 then World(w.view[Key(s, page) := Demand(w.task[s], page, image)], w.task)
      else World(EagerEntry(w.view, DirOf(r, page), DirOf(s, page), page % ENTRIES), w.task)
    case Exec(s, _, exec, endData) =>
      World(Without(w.view, s * DIRS_PER_TASK, DIRS_PER_TASK, 0), w.task[s := Task(SLOT_SIZE, 0, exec, endData, false)])
    case Exit(s, _) => World(Without(w.view, s * DIRS_PER_TASK, DIRS_PER_TASK, 0),
      w.task[s := w.task[s].(zombie := true)])
    case Release(s) => World(w.view, w.task[s := NoTask])
    case Verify(_, _, _) => w
    case KernelStore(s, page, off, v) => World(WithByte(w.view, Key(s, page), off, v), w.task)
  }

  /** A shared page comes from another task running the same executable that has it. */
  ghost predicate ShareOk(w: World, op: Op, r: int) {
    r > 0 ==>
      && op.Fault? && Live(w, op.slot) && 1 <= r < NR_TASKS && r != op.slot && w.task[r].Task?
      && w.task[r].exec == w.task[op.slot].exec != 0 && Key(r, op.page) in w.view
  }

  ghost function Next(w: World, op: Op, r: int): World {
    if Enabled(w, op) then EagerStep(w, op, r) else w
  }

  ghost function EagerRun(w: World, ops: seq<Op>, rs: seq<int>): World
    requires |ops| == |rs|
    decreases |ops|
  {
    if ops == [] then w
    else
      var n := |ops| - 1;
      Next(EagerRun(w, ops[..n], rs[..n]), ops[n], rs[n])
  }

  // ---- the whole state, step by step ----

  datatype Sys = Sys(m: Mem, held: seq<nat>, task: seq<Task>)

  ghost predicate SysOk(x: Sys) {
    Shape(x.m) && |x.held| == PAGING_PAGES && Inv(x.m, x.held) && SlotsOk(x.m, x.held, x.task)
  }

  function Strip(ts: seq<Task>): seq<Task> {
    seq(|ts|, k requires 0 <= k < |ts| => if ts[k].Task? then ts[k].(page := 0) else NoTask)
  }

  ghost function WorldOf(x: Sys): World
    requires Shape(x.m)
  {
    World(ViewOf(x.m), Strip(x.task))
  }

  /** Boot: no user tables, and no task runs an executable. */
  ghost predicate Fresh(x: Sys) {
    && Shape(x.m) && (forall d :: DIRS_PER_TASK <= d < NR_DIRS ==> x.m.dir[d] == NoTable)
    && (forall t :: t in x.task ==> t.NoTask? || t.exec == 0)
  }

  /** Another task running the same executable has a page there that can be shared. */
  ghost predicate Candidate(m: Mem, ts: seq<Task>, s: int, k: int, page: int)
    requires Shape(m) && |ts| == NR_TASKS && 0 <= s < NR_TASKS && ts[s].Task? && 0 <= page < DIRS_PER_TASK * ENTRIES
  {
    1 <= k < NR_TASKS && k != s && ts[k].Task? && ts[k].exec == ts[s].exec
      && Shareable(m, DirOf(k, page), page % ENTRIES)
  }

  /** share_page takes the last candidate, and the disk only when there is none. */
  ghost predicate Chosen(m: Mem, ts: seq<Task>, s: int, page: int, r: int)
    requires Shape(m) && |ts| == NR_TASKS && 0 <= s < NR_TASKS && ts[s].Task? && 0 <= page < DIRS_PER_TASK * ENTRIES
  {
    && (r > 0 ==> Backed(ts[s], page) && Candidate(m, ts, s, r, page))
    && (r >= 0 && Backed(ts[s], page) ==> forall k :: k > r ==> !Candidate(m, ts, s, k, page))
  }

  /** The pages that must have run short for the operation to fail. */
  ghost predicate Scarce(x: Sys, op: Op, y: Sys)
    requires SysOk(x) && SysOk(y) && Enabled(WorldOf(x), op)
  {
    match op
    case Fork(p, _) => |Free(x.m)| <= Extent(x.task[p])
    case Store(_, _, _, _) => Free(x.m) == {}
    case Fault(_, _, _) => |Free(x.m)| <= 1
    case Verify(_, _, _) => Free(y.m) == {}
    case _ => false
  }

  /** What the operation does below the views: where its clean pages come from, whom
      a fault shares with, which pages verify_area copies. */
  ghost predicate Traced(x: Sys, op: Op, r: int, y: Sys)
    requires SysOk(x) && SysOk(y) && Enabled(WorldOf(x), op)
  {
    match op
    case Fork(p, c) =>
      if r < 0 then CleanKept(x.m, y.m)
      else Inherited(x.m, y.m, p * DIRS_PER_TASK, c * DIRS_PER_TASK, Extent(x.task[p]))
    case Store(s, page, _, _) => CleanKept(x.m, y.m) && (r < 0 || !Clean(y.m, DirOf(s, page), page % ENTRIES))
    case Fault(s, page, _) =>
      if r < 0 then CleanKept(x.m, y.m)
      else CleanBut(x.m, y.m, DirOf(s, page), page % ENTRIES) && Chosen(x.m, x.task, s, page, r)
    case Verify(_, start, size) => Checked(x.m, y.m, FirstPage(start), LastPage(start, size), r)
    case KernelStore(s, page, off, v) =>
      StoredOnly(x.m, y.m, DirOf(s, page), page % ENTRIES, off, v) && y.task == x.task
    case _ => CleanKept(x.m, y.m)
  }

  /** The child maps the frames its parent mapped and maps still, clean pages for
      clean ones. */
  ghost predicate Inherited(m: Mem, r: Mem, fd: int, td: int, n: int)
    requires Shape(m) && Shape(r)
  {
    DirsShared(m, r, fd, td, n) && DirsShared(r, r, fd, td, n) && CleanCopied(m, r, fd, td, n, 0)
  }

  /** A verify_area that succeeds leaves no page of its area shared. */
  ghost predicate Checked(m: Mem, r: Mem, first: int, last: int, outcome: int)
    requires Shape(m) && Shape(r)
  {
    Verified(m, r, first, last) && (outcome == 0 && OneSlot(first, last) ==> Unshared(m, r, first, last))
  }

  ghost predicate StoredOnly(m: Mem, r: Mem, d: int, i: int, off: int, v: int)
    requires Shape(m) && 0 <= off < PAGE_SIZE
  {
    Seen(m, d, i) && r == Stored(m, d, i, off, v)
  }

  /** For a kernel store: nobody else maps the frame, or the byte is there already. */
  ghost predicate Apart(x: Sys, op: Op)
    requires SysOk(x)
  {
    op.KernelStore? && Enabled(WorldOf(x), op) ==>
      var d, i := DirOf(op.slot, op.page), op.page % ENTRIES;
      Seen(x.m, d, i) && (Alone(x.m, d, i) || PageAt(x.m, d, i)[op.off] == op.value)
  }

  /** For a kernel store: what could be checked beforehand. */
  ghost predicate Guards(x: Sys, op: Op)
    requires SysOk(x)
  {
    op.KernelStore? && Enabled(WorldOf(x), op) ==>
      var d, i := DirOf(op.slot, op.page), op.page % ENTRIES;
      Visible(d, i) && At(x.m, d, i).Present? && Guarded(x.m, d, i)
  }

  /** One operation: -2 and no change if it is not Enabled; otherwise a failure is for
      want of pages, and the step is the eager model's exactly if it is Apart. */
  ghost predicate Outcome(x: Sys, op: Op, r: int, guarded: bool, y: Sys) {
    && SysOk(x) && SysOk(y)
    && guarded == Guards(x, op) && (guarded ==> Apart(x, op))
    && (if Enabled(WorldOf(x), op) then
          && -1 <= r && (r < 0 ==> Scarce(x, op, y))
          && ShareOk(WorldOf(x), op, r) && Traced(x, op, r, y)
          && (WorldOf(y) == EagerStep(WorldOf(x), op, r) <==> Apart(x, op))
        else r == -2 && y == x)
  }

  /** Step k of a run. */
  ghost predicate Happened(ss: seq<Sys>, ops: seq<Op>, rs: seq<int>, gs: seq<bool>, k: int)
    requires |ops| == |rs| == |gs| && |ss| == |ops| + 1 && 0 <= k < |ops|
  {
    Outcome(ss[k], ops[k], rs[k], gs[k], ss[k + 1])
  }

  /** Step k of a run is an eager step. */
  ghost predicate Eagerly(ss: seq<Sys>, ops: seq<Op>, rs: seq<int>, k: int)
    requires |ops| == |rs| && |ss| == |ops| + 1 && 0 <= k < |ops|
  {
    Shape(ss[k].m) && Shape(ss[k + 1].m) && WorldOf(ss[k + 1]) == Next(WorldOf(ss[k]), ops[k], rs[k])
  }

  lemma {:induction false} EagerTrace(ss: seq<Sys>, ops: seq<Op>, rs: seq<int>, n: nat)
    requires |ops| == |rs| && |ss| == |ops| + 1 && n <= |ops| && Shape(ss[0].m)
    requires forall k :: 0 <= k < |ops| ==> Eagerly(ss, ops, rs, k)
    ensures Shape(ss[n].m) && WorldOf(ss[n]) == EagerRun(WorldOf(ss[0]), ops[..n], rs[..n])
  {
    hide Next, WorldOf;
    if n > 0 {
      EagerTrace(ss, ops, rs, n - 1);
      assert Eagerly(ss, ops, rs, n - 1);
      assert ops[..n][..n - 1] == ops[..n - 1] && rs[..n][..n - 1] == rs[..n - 1];
    }
  }

  /** A step of a run is eager exactly if it is Apart; Guards is enough for that. */
  lemma StepEager(ss: seq<Sys>, ops: seq<Op>, rs: seq<int>, gs: seq<bool>, k: int)
    requires |ops| == |rs| == |gs| && |ss| == |ops| + 1 && 0 <= k < |ops| && Happened(ss, ops, rs, gs, k)
    ensures SysOk(ss[k]) && (Eagerly(ss, ops, rs, k) <==> Apart(ss[k], ops[k]))
    ensures gs[k] ==> Eagerly(ss, ops, rs, k)
  {
    hide SysOk, EagerStep, Traced, Scarce, ShareOk, WorldOf, Enabled, Alone;
    KnownShapes(ss[k]);
    KnownShapes(ss[k + 1]);
  }

  lemma KnownShapes(x: Sys)
    requires SysOk(x)
    ensures Shape(x.m)
  {
  }

  /** The only slot whose memory an operation may change. */
  function Target(op: Op): int {
    match op
    case Fork(_, c) => c
    case Store(s, _, _, _) => s
    case Fault(s, _, _) => s
    case Exec(s, _, _, _) => s
    case Exit(s, _) => s
    case Release(s) => s
    case Verify(s, _, _) => s
    case KernelStore(s, _, _, _) => s
  }

  ghost predicate LimitsOk(w: World) {
    |w.task| == NR_TASKS && forall s :: 0 <= s < NR_TASKS && w.task[s].Task? ==> 0 <= w.task[s].limit <= SLOT_SIZE
  }

  ghost predicate SamePage(v: View, u: View, q: (int, int)) {
    (q in v <==> q in u) && (q in v ==> v[q] == u[q])
  }

  lemma StepIsolated(w: World, op: Op, r: int, q: (int, int))
    requires LimitsOk(w) && Enabled(w, op)
    requires 0 <= q.0 < NR_DIRS && 0 <= q.1 < ENTRIES && q.0 / DIRS_PER_TASK != Target(op)
    ensures LimitsOk(EagerStep(w, op, r)) && SamePage(w.view, EagerStep(w, op, r).view, q)
  {
    if r >= 0 {
      match op {
        case Fork(p, c) => EagerAt(w.view, p * DIRS_PER_TASK, c * DIRS_PER_TASK, Extent(w.task[p]), 0, q);
        case Store(_, _, _, _) =>
        case Fault(_, _, _) =>
        case Exec(_, _, _, _) =>
        case Exit(_, _) =>
        case Release(_) =>
        case Verify(_, _, _) =>
        case KernelStore(_, _, _, _) =>
      }
    }
  }

  /** Isolation over whole runs: as long as nothing is done to a slot itself, no
      fork of it, store, fault, exec or exit elsewhere changes any of its pages. */
  lemma {:induction false} Isolation(w: World, ops: seq<Op>, rs: seq<int>, q: (int, int))
    requires LimitsOk(w) && |ops| == |rs| && 0 <= q.0 < NR_DIRS && 0 <= q.1 < ENTRIES
    requires forall k :: 0 <= k < |ops| ==> Target(ops[k]) != q.0 / DIRS_PER_TASK
    ensures LimitsOk(EagerRun(w, ops, rs)) && SamePage(w.view, EagerRun(w, ops, rs).view, q)
    decreases |ops|
  {
    hide EagerStep, Enabled;
    if ops != [] {
      var n := |ops| - 1;
      Isolation(w, ops[..n], rs[..n], q);
      var before := EagerRun(w, ops[..n], rs[..n]);
      if Enabled(before, ops[n]) {
        StepIsolated(before, ops[n], rs[n], q);
      }
    }
  }

  class Processes {
    const mm: Mm
    const task: array<Task>

    ghost predicate Valid()
      reads mm, mm.memMap, mm.pgDir, mm.tables, mm.pages, task
    {
      mm.Valid() && SlotsOk(mm.St(), mm.held, task[..])
    }

    ghost function W(): World
      reads mm, mm.memMap, mm.pgDir, mm.tables, mm.pages, task
      requires mm.Valid()
    {
      World(ViewOf(mm.St()), Strip(task[..]))
    }

    ghost function Now(): Sys
      reads mm, mm.memMap, mm.pgDir, mm.tables, mm.pages, task
    {
      Sys(mm.St(), mm.held, task[..])
    }

    /** Boot: only task 0, with the 640 kB limit of INIT_TASK. */
    constructor (start: int, end: int, kernelTable: EntryTable, image: Page)
      requires LOW <= start <= end <= FRAMES
      requires forall i :: 0 <= i < KERNEL_ENTRIES && kernelTable[i].Present? ==> kernelTable[i].frame < LOW
      ensures Valid() && fresh(mm) && fresh(task) && fresh(mm.memMap) && Fresh(Now())
    {
      mm := new Mm(start, end, kernelTable, image);
      task := new Task[NR_TASKS](s => if s == 0 then Task(KERNEL_LIMIT, 0, 0, 0, false) else NoTask);
      new;
      assert mm.St().dir[0].Table?;
      assert forall d :: 1 <= d < NR_DIRS ==> mm.St().dir[d] == NoTable;
    }

    /** copy_process and copy_mem.  A fork that fails, at the task structure or in
        the middle of the page tables, restores every reference count. */
    method Fork(p: int, c: int) returns (ok: bool)
      requires Valid() && Enabled(W(), Op.Fork(p, c))
      modifies mm`held, mm.memMap, mm.pgDir, mm.tables, mm.pages, task
      ensures Valid()
      ensures W() == EagerStep(old(W()), Op.Fork(p, c), if ok then 0 else -1)
      ensures !ok ==> mm.memMap[..] == old(mm.memMap[..]) && mm.held == old(mm.held)
      ensures !ok ==> |Free(old(mm.St()))| <= Extent(old(task[p])) && CleanKept(old(mm.St()), mm.St())
      ensures ok ==> Inherited(old(mm.St()), mm.St(), p * DIRS_PER_TASK, c * DIRS_PER_TASK, Extent(old(task[p])))
    {
      hide Inherited, DirsShared, CleanKept, CleanCopied, CleanOutside, PageSteps.Free, PageModel.Inv,
           PageModel.ViewOf, CowMemory.EagerCopy, CowMemory.SameOutside,
           PageSteps.SameElsewhere, SlotsOk, SlotClear, CowMemory.NoTables;
      ghost var ts := task[..];
      TasksKnown(mm.St(), mm.held, ts);
      CopiedNothing(mm.St(), p, c);
      var t := mm.GetFreePage();
      if t == 0 {
        return false;
      }
      ghost var m, h := mm.St(), mm.held;
      TakeFree(old(mm.St()), t);
      TakeClean(old(mm.St()), old(mm.held), t);
      ForkReady(old(mm.St()), old(mm.held), m, t, ts, p, c);
      var n := Dirs(task[p].limit);
      ok := mm.CopyPageTables(p * DIRS_PER_TASK, c * DIRS_PER_TASK, n);
      if !ok {
        ghost var half := mm.St();
        assert c * SLOT_SIZE / TABLE_SPAN == c * DIRS_PER_TASK && c * SLOT_SIZE % TABLE_SPAN == 0;
        mm.FreePageTables(c * SLOT_SIZE, task[p].limit);
        ghost var freed := mm.St();
        ForkUndone(m, half, mm.St(), h, p * DIRS_PER_TASK, c * DIRS_PER_TASK, n);
        GiveBackKeeps(mm.St(), h, t);
        mm.FreePage(t);
        UndoneClean(old(mm.St()), m, half, freed, mm.St(), c * DIRS_PER_TASK, n);
        mm.held := Unhold(mm.held, t);
        assert mm.held == old(mm.held);
        assert mm.memMap[..] == old(mm.memMap[..]);
        SlotsSame(old(mm.St()), mm.St(), mm.held, ts);
        return;
      }
      task[c] := task[p].(page := t);
      assert task[..] == ts[c := ts[p].(page := t)];
      InheritedFrom(old(mm.St()), m, mm.St(), p * DIRS_PER_TASK, c * DIRS_PER_TASK, n);
      OutsideDirs(m, mm.St(), c * DIRS_PER_TASK, n);
      SlotsForked(old(mm.St()), old(mm.held), mm.St(), t, ts, p, c);
      StripUpdate(ts, c, ts[p].(page := t));
    }

    /** share_page: looks for another task with the same executable, from the last
        slot down, whose clean page can be shared.  0: none, -1: out of memory. */
    method SharePage(s: int, page: int) returns (r: int)
      requires Valid() && InLimit(W(), s, page) && Key(s, page) !in W().view
      modifies mm`held, mm.memMap, mm.pgDir, mm.tables, mm.pages
      ensures mm.Valid() && mm.held == old(mm.held) && OnlyDir(old(mm.St()), mm.St(), DirOf(s, page))
      ensures ViewOf(mm.St()) == if r > 0 then EagerEntry(old(W()).view, DirOf(r, page), DirOf(s, page), page % ENTRIES)
        else old(W()).view
      ensures ShareOk(old(W()), Op.Fault(s, page, ZeroPage()), r)
      ensures r <= 0 ==> mm.St() == old(mm.St())
      ensures task[s].exec != 0 && r >= 0 ==> forall k :: k > r ==> !Candidate(old(mm.St()), task[..], s, k, page)
      ensures r > 0 ==> Candidate(old(mm.St()), task[..], s, r, page)
      ensures CleanBut(old(mm.St()), mm.St(), DirOf(s, page), page % ENTRIES)
      ensures r < 0 ==> r == -1 && Free(mm.St()) == {}
    {
      hide PageModel.Inv, PageModel.ViewOf, SlotsOk, SlotClear, CowMemory.EagerEntry, PageSteps.Free, CleanBut;
      TasksKnown(mm.St(), mm.held, task[..]);
      ghost var m := mm.St();
      OthersClean(m, m, DirOf(s, page), page % ENTRIES);
      if task[s].exec == 0 {
        return 0;
      }
      var p := NR_TASKS - 1;
      while p > 0
        invariant 0 <= p < NR_TASKS
        invariant mm.Valid() && mm.held == old(mm.held) && mm.St() == old(mm.St())
        invariant forall k :: p < k ==> !Candidate(m, task[..], s, k, page)
      {
        if p != s && task[p].Task? && task[p].exec == task[s].exec {
          UnmappedKey(mm.St(), mm.held, s, page);
          var shared := mm.TryToShare(p, s, page);
          if shared == 1 {
            return p;
          } else if shared < 0 {
            return -1;
          }
          assert !Shareable(m, DirOf(p, page), page % ENTRIES);
        }
        assert !Candidate(m, task[..], s, p, page);
        p := p - 1;
      }
      r := 0;
    }

    /** do_no_page: a fault on an address without a page.  `image` stands for what
        bread_page reads from the executable. */
    method Fault(s: int, page: int, image: Page) returns (r: int)
      requires Valid() && Enabled(W(), Op.Fault(s, page, image))
      modifies mm`held, mm.memMap, mm.pgDir, mm.tables, mm.pages
      ensures Valid() && W() == EagerStep(old(W()), Op.Fault(s, page, image), r)
      ensures ShareOk(old(W()), Op.Fault(s, page, image), r)
      ensures Chosen(old(mm.St()), task[..], s, page, r)
      ensures CleanBut(old(mm.St()), mm.St(), DirOf(s, page), page % ENTRIES)
      ensures r < 0 ==> r == -1 && |Free(old(mm.St()))| <= 1 && CleanKept(old(mm.St()), mm.St())
    {
      hide PageModel.Inv, PageModel.ViewOf, SlotsOk, SlotClear, CowMemory.EagerEntry, PageSteps.Free, CleanBut,
           CleanKept, Candidate;
      ghost var m := mm.St();
      TasksKnown(m, mm.held, task[..]);
      UnmappedKey(m, mm.held, s, page);
      var t := task[s];
      r := 0;
      CopiedNothing(m, 0, 0);
      if Backed(t, page) {
        r := SharePage(s, page);
      }
      if r == 0 {
        var ok := mm.NewPage(DirOf(s, page), page % ENTRIES, Demand(t, page, image));
        r := if ok then 0 else -1;
      }
      assert Extent(task[..][s]) == Extent(W().task[s]);
      SlotsWithTable(m, mm.St(), mm.held, task[..], s, DirOf(s, page));
    }

    /** The memory side of execve's point of no return and of exit: both segments
        are freed; the data segment covers the code segment, so the second call finds
        part of its range already free. */
    method FreeSlot(s: int, codeLimit: int)
      requires Valid() && 1 <= s < NR_TASKS && task[s].Task? && 0 <= codeLimit <= task[s].limit && !task[s].zombie
      modifies mm.memMap, mm.pgDir, mm.tables
      ensures mm.Valid()
      ensures ViewOf(mm.St()) == Without(old(ViewOf(mm.St())), s * DIRS_PER_TASK, DIRS_PER_TASK, 0)
      ensures NoTables(mm.St(), s * DIRS_PER_TASK, DIRS_PER_TASK) && CleanKept(old(mm.St()), mm.St())
      ensures forall d ::
                0 <= d < NR_DIRS && !(s * DIRS_PER_TASK <= d < (s + 1) * DIRS_PER_TASK) ==>
                  mm.St().dir[d] == old(mm.St()).dir[d]
    {
      hide PageModel.Inv, PageModel.ViewOf, CowMemory.Without, CleanKept;
      ghost var m := mm.St();
      var d0 := s * DIRS_PER_TASK;
      assert s * SLOT_SIZE / TABLE_SPAN == d0 && s * SLOT_SIZE % TABLE_SPAN == 0;
      assert SlotClear(m, task[..][s], s);
      mm.FreePageTables(s * SLOT_SIZE, codeLimit);
      ghost var m1 := mm.St();
      mm.FreePageTables(s * SLOT_SIZE, task[s].limit);
      OutsideDirs(m, m1, d0, Dirs(codeLimit));
      OutsideDirs(m1, mm.St(), d0, Dirs(task[s].limit));
      WithoutTwice(m, d0, Dirs(codeLimit), Dirs(task[s].limit));
      FreedAll(m, mm.St(), d0, Dirs(task[s].limit));
      KeptTrans(m, m1, mm.St());
    }

    method Exec(s: int, codeLimit: int, exec: int, endData: int)
      requires Valid() && Enabled(W(), Op.Exec(s, codeLimit, exec, endData))
      modifies mm.memMap, mm.pgDir, mm.tables, task
      ensures Valid() && W() == EagerStep(old(W()), Op.Exec(s, codeLimit, exec, endData), 0)
      ensures CleanKept(old(mm.St()), mm.St())
    {
      hide PageModel.Inv, PageModel.ViewOf, CowMemory.Without, CleanKept;
      ghost var ts, m := task[..], mm.St();
      FreeSlot(s, codeLimit);
      task[s] := Task(SLOT_SIZE, task[s].page, exec, endData, false);
      assert task[..] == ts[s := Task(SLOT_SIZE, ts[s].page, exec, endData, false)];
      SlotsEmptied(m, mm.St(), mm.held, ts, s, Task(SLOT_SIZE, ts[s].page, exec, endData, false));
      StripUpdate(ts, s, Task(SLOT_SIZE, ts[s].page, exec, endData, false));
    }

    method Exit(s: int, codeLimit: int)
      requires Valid() && Enabled(W(), Op.Exit(s, codeLimit))
      modifies mm.memMap, mm.pgDir, mm.tables, task
      ensures Valid() && W() == EagerStep(old(W()), Op.Exit(s, codeLimit), 0)
      ensures CleanKept(old(mm.St()), mm.St())
    {
      hide PageModel.Inv, PageModel.ViewOf, CowMemory.Without, CleanKept;
      ghost var ts, m := task[..], mm.St();
      FreeSlot(s, codeLimit);
      task[s] := task[s].(zombie := true);
      assert task[..] == ts[s := ts[s].(zombie := true)];
      SlotsEmptied(m, mm.St(), mm.held, ts, s, ts[s].(zombie := true));
      StripUpdate(ts, s, ts[s].(zombie := true));
    }

    /** release(): the last page of a dead task, the one with its task structure. */
    method Release(s: int)
      requires Valid() && Enabled(W(), Op.Release(s))
      modifies mm`held, mm.memMap, task
      ensures Valid() && W() == EagerStep(old(W()), Op.Release(s), 0)
      ensures CleanKept(old(mm.St()), mm.St())
    {
      hide PageModel.Inv, PageModel.ViewOf, CleanKept;
      ghost var ts, m, h := task[..], mm.St(), mm.held;
      var f := task[s].page;
      assert f == ts[s].page;
      GiveBackKeeps(m, h, f);
      mm.FreePage(f);
      SameEntriesClean(m, mm.St());
      mm.held := Unhold(mm.held, f);
      task[s] := NoTask;
      assert task[..] == ts[s := NoTask];
      SlotsReleased(m, h, mm.St(), ts, s);
      StripUpdate(ts, s, NoTask);
    }

    method StoreByte(s: int, page: int, off: int, value: int) returns (ok: bool)
      requires Valid() && Enabled(W(), Op.Store(s, page, off, value))
      modifies mm`held, mm.memMap, mm.tables, mm.pages
      ensures Valid() && W() == EagerStep(old(W()), Op.Store(s, page, off, value), if ok then 0 else -1)
      ensures CleanKept(old(mm.St()), mm.St()) && (ok ==> !Clean(mm.St(), DirOf(s, page), page % ENTRIES))
      ensures !ok ==> mm.St() == old(mm.St()) && Free(mm.St()) == {}
    {
      hide CleanKept, Clean, PageModel.Inv, PageModel.ViewOf, SlotsOk, SlotClear;
      ghost var m := mm.St();
      TasksKnown(m, mm.held, task[..]);
      MappedKey(m, mm.held, s, page);
      ok := mm.UserStore(DirOf(s, page), page % ENTRIES, off, value);
      SlotsSame(m, mm.St(), mm.held, task[..]);
    }

    /** verify_area on a task's behalf: nobody's memory changes. */
    method Verify(s: int, start: int, size: int) returns (ok: bool)
      requires Valid() && Enabled(W(), Op.Verify(s, start, size))
      modifies mm`held, mm.memMap, mm.tables, mm.pages
      ensures Valid() && W() == EagerStep(old(W()), Op.Verify(s, start, size), if ok then 0 else -1)
      ensures ok ==> forall a :: start <= a < start + size ==> WritableIfPresent(mm.St(), a / PAGE_SIZE)
      ensures Checked(old(mm.St()), mm.St(), FirstPage(start), LastPage(start, size), if ok then 0 else -1)
      ensures !ok ==> Free(mm.St()) == {}
    {
      hide Verified, Unshared, PageModel.Inv, PageModel.ViewOf, SlotsOk, SlotClear;
      ghost var m := mm.St();
      ok := mm.VerifyArea(start, size);
      SlotsSame(m, mm.St(), mm.held, task[..]);
    }

    /** The kernel writes a byte of a task's page, or (slot 0) of its own memory.
        It is the eager store exactly when nobody else maps the frame or the byte was
        there already. */
    method KernelStore(s: int, page: int, off: int, value: int) returns (guarded: bool, ghost apart: bool)
      requires Valid() && Enabled(W(), Op.KernelStore(s, page, off, value))
      modifies mm.tables, mm.pages
      ensures Valid() && (guarded ==> apart)
      ensures old(Seen(mm.St(), DirOf(s, page), page % ENTRIES))
      ensures guarded == Guarded(old(mm.St()), DirOf(s, page), page % ENTRIES)
      ensures apart == old(Alone(mm.St(), DirOf(s, page), page % ENTRIES)
                           || PageAt(mm.St(), DirOf(s, page), page % ENTRIES)[off] == value)
      ensures apart <==> W() == EagerStep(old(W()), Op.KernelStore(s, page, off, value), 0)
      ensures StoredOnly(old(mm.St()), mm.St(), DirOf(s, page), page % ENTRIES, off, value)
    {
      hide PageModel.Inv, PageModel.ViewOf, SlotsOk, SlotClear, KernelStores.Alone, KernelStores.Stored;
      ghost var m := mm.St();
      TasksKnown(m, mm.held, task[..]);
      ViewAt(m, Key(s, page));
      guarded, apart := mm.KernelStore(DirOf(s, page), page % ENTRIES, off, value);
      SlotsSame(m, mm.St(), mm.held, task[..]);
    }

    /** One operation, whichever it is. */
    method Step(op: Op) returns (r: int, guarded: bool)
      requires Valid()
      modifies mm`held, mm.memMap, mm.pgDir, mm.tables, mm.pages, task
      ensures Valid() && Outcome(old(Now()), op, r, guarded, Now())
    {
      hide PageModel.Inv, PageModel.ViewOf, SlotsOk, EagerStep, PageSteps.Free, CleanKept, CleanBut, CleanCopied, Clean,
           Checked, Chosen, Inherited, StoredOnly, KernelStores.Alone, KernelStores.Stored, Enabled, Guarded, PageAt;
      var go := IsEnabled(op);
      guarded, r := true, 0;
      if !go {
        return -2, true;
      }
      match op
      case Fork(p, c) =>
        ForkInRange(W(), p, c);
        TasksKnown(mm.St(), mm.held, task[..]);
        var ok := Fork(p, c);
        r := if ok then 0 else -1;
      case Store(s, page, off, v) =>
        var ok := StoreByte(s, page, off, v);
        r := if ok then 0 else -1;
      case Fault(s, page, image) =>
        r := Fault(s, page, image);
      case Exec(s, code, exec, endData) =>
        Exec(s, code, exec, endData);
      case Exit(s, code) =>
        Exit(s, code);
      case Release(s) =>
        Release(s);
      case Verify(s, start, size) =>
        var ok := Verify(s, start, size);
        r := if ok then 0 else -1;
      case KernelStore(s, page, off, v) =>
        ghost var apart;
        guarded, apart := KernelStore(s, page, off, v);
    }

    /** What the processor and the callers check before the memory code runs. */
    method IsEnabled(op: Op) returns (b: bool)
      requires Valid()
      ensures b == Enabled(W(), op)
    {
      hide PageModel.Inv, PageModel.ViewOf, SlotsOk;
      TasksKnown(mm.St(), mm.held, task[..]);
      match op
      case Fork(p, c) =>
        b := (p == 0 || IsLive(p)) && 1 <= c < NR_TASKS && task[c].NoTask?;
      case Store(s, page, off, _) =>
        b := IsLive(s) && 0 <= page < Extent(task[s]) * ENTRIES && 0 <= off < PAGE_SIZE;
        if b {
          b := IsMapped(s, page);
        }
      case Fault(s, page, _) =>
        b := IsLive(s) && 0 <= page < Extent(task[s]) * ENTRIES;
        if b {
          b := IsMapped(s, page);
          b := !b;
        }
      case Exec(s, code, _, _) =>
        b := IsLive(s) && 0 <= code <= task[s].limit;
      case Exit(s, code) =>
        b := IsLive(s) && 0 <= code <= task[s].limit;
      case Release(s) =>
        b := 1 <= s < NR_TASKS && task[s].Task? && task[s].zombie;
      case Verify(s, start, size) =>
        b := IsLive(s) && 0 <= size && s * SLOT_SIZE <= start && start + size <= NR_TASKS * SLOT_SIZE;
      case KernelStore(s, page, off, _) =>
        b := 0 <= off < PAGE_SIZE && 0 <= page
             && ((IsLive(s) && page < Extent(task[s]) * ENTRIES) || (s == 0 && page < KERNEL_ENTRIES));
        if b {
          b := IsMapped(s, page);
        }
    }

    predicate IsLive(s: int)
      reads task
      requires task.Length == NR_TASKS
    {
      1 <= s < NR_TASKS && task[s].Task? && !task[s].zombie
    }

    method IsMapped(s: int, page: int) returns (b: bool)
      requires Valid() && 0 <= s < NR_TASKS && 0 <= page < if s == 0 then KERNEL_ENTRIES else DIRS_PER_TASK * ENTRIES
      ensures b == (Key(s, page) in W().view)
    {
      hide PageModel.ViewOf;
      SeenIff(mm.St(), mm.held, DirOf(s, page), page % ENTRIES);
      b := mm.pgDir[DirOf(s, page)].Table? && mm.tables[mm.pgDir[DirOf(s, page)].frame][page % ENTRIES].Present?;
    }

    /** Copy-on-write refines eager copying. In any run of forks, stores, faults, page
        sharing, verify_area calls, execs, exits and waits, each step shows every task
        exactly the memory of the eager model, kernel stores excepted, which do so
        exactly if they are Apart: nobody else maps the frame, or the byte was there
        already.  A count of 1 (`gs`) is enough.  An operation fails only when pages are
        short.  `ss` is the sequence of states passed through. */
    method Run(ops: seq<Op>) returns (rs: seq<int>, gs: seq<bool>, ghost ss: seq<Sys>)
      requires Valid()
      modifies mm`held, mm.memMap, mm.pgDir, mm.tables, mm.pages, task
      ensures Valid() && |rs| == |gs| == |ops| && |ss| == |ops| + 1
      ensures ss[0] == old(Now()) && ss[|ops|] == Now()
      ensures forall k :: 0 <= k < |ops| ==> Happened(ss, ops, rs, gs, k)
      ensures forall k :: 0 <= k < |ops| ==> SysOk(ss[k]) && (Eagerly(ss, ops, rs, k) <==> Apart(ss[k], ops[k]))
      ensures forall k :: 0 <= k < |ops| && gs[k] ==> Eagerly(ss, ops, rs, k)
      ensures (forall k :: 0 <= k < |ops| ==> Eagerly(ss, ops, rs, k)) ==> W() == EagerRun(old(W()), ops, rs)
    {
      hide PageModel.Inv, PageModel.ViewOf, SlotsOk, Next, Outcome, Apart, Eagerly;
      rs, gs, ss := [], [], [Now()];
      var k := 0;
      while k < |ops|
        invariant 0 <= k <= |ops| && |rs| == |gs| == k && |ss| == k + 1 && Valid()
        invariant ss[0] == old(Now()) && ss[k] == Now()
        invariant forall j :: 0 <= j < k ==> Outcome(ss[j], ops[j], rs[j], gs[j], ss[j + 1])
      {
        var r, g := Step(ops[k]);
        rs, gs, ss := rs + [r], gs + [g], ss + [Now()];
        k := k + 1;
      }
      forall j | 0 <= j < |ops|
        ensures Happened(ss, ops, rs, gs, j) && SysOk(ss[j]) && (Eagerly(ss, ops, rs, j) <==> Apart(ss[j], ops[j]))
        ensures gs[j] ==> Eagerly(ss, ops, rs, j)
      {
        StepEager(ss, ops, rs, gs, j);
      }
      if forall j :: 0 <= j < |ops| ==> Eagerly(ss, ops, rs, j) {
        EagerTrace(ss, ops, rs, |ops|);
        assert ops[..|ops|] == ops && rs[..|ops|] == rs;
      }
    }
  }

  // ---- facts about the task table ----

  lemma TasksKnown(m: Mem, held: seq<nat>, ts: seq<Task>)
    requires Shape(m) && |held| == PAGING_PAGES && SlotsOk(m, held, ts)
    ensures |ts| == NR_TASKS && ts[0].Task? && ts[0].limit == KERNEL_LIMIT && !ts[0].zombie
    ensures forall s :: 0 <= s < NR_TASKS && ts[s].Task? ==> 0 <= ts[s].limit <= SLOT_SIZE
  {
  }

  lemma StripUpdate(ts: seq<Task>, c: int, t: Task)
    requires 0 <= c < |ts|
    ensures Strip(ts[c := t]) == Strip(ts)[c := if t.Task? then t.(page := 0) else NoTask]
  {
  }

  /** Replacing the table entries by equal directories keeps the slots in order. */
  lemma SlotsSame(m: Mem, r: Mem, held: seq<nat>, ts: seq<Task>)
    requires Shape(m) && Shape(r) && |held| == PAGING_PAGES && SlotsOk(m, held, ts) && m.dir == r.dir
    ensures SlotsOk(r, held, ts)
  {
    assert forall s :: 1 <= s < NR_TASKS && SlotClear(m, ts[s], s) ==> SlotClear(r, ts[s], s);
  }

  lemma ForkInRange(w: World, p: int, c: int)
    requires Enabled(w, Op.Fork(p, c))
    ensures 0 <= p < NR_TASKS && 1 <= c < NR_TASKS
  {
  }

  lemma ForkReady(m0: Mem, held: seq<nat>, m: Mem, t: int, ts: seq<Task>, p: int, c: int)
    requires Inv(m0, held) && SlotsOk(m0, held, ts) && FreeFrame(m0, t) && m == Take(m0, t)
    requires 0 <= p < NR_TASKS && ts[p].Task? && 1 <= c < NR_TASKS && ts[c].NoTask?
    ensures NoTables(m, c * DIRS_PER_TASK, Dirs(ts[p].limit)) && 0 <= Dirs(ts[p].limit) <= DIRS_PER_TASK
    ensures m.count == m0.count[t - LOW := 1] && m0.count[t - LOW] == 0 && Kept(held, t) == 0
  {
    assert SlotClear(m0, ts[c], c);
  }

  /** Freeing the receiver's half-built slot undoes a failed copy. */
  lemma ForkUndone(m: Mem, half: Mem, r: Mem, held: seq<nat>, fd: int, td: int, n: int)
    requires Inv(m, held) && Inv(r, held) && Shape(half) && 0 <= td && 0 <= n && td + n <= NR_DIRS
    requires SameOutside(m, half, td, n) && SameOutside(half, r, td, n) && NoTables(m, td, n) && NoTables(r, td, n)
    requires exists k :: 0 <= k < n && ViewOf(half) == EagerCopy(ViewOf(m), fd, td, k, 0)
    requires ViewOf(r) == Without(ViewOf(half), td, n, 0)
    ensures ViewOf(r) == ViewOf(m) && r.dir == m.dir && r.count == m.count
  {
    hide PageModel.Exact, PageModel.Exclusive, PageModel.SameOffset, PageModel.Protected, PageModel.ViewOf,
         CowMemory.EagerCopy;
    forall a, b | Visible(a, b)
      ensures SameFrame(At(r, a, b), At(m, a, b))
    {
      if td <= a < td + n {
        assert r.dir[a] == NoTable && m.dir[a] == NoTable;
      } else {
        assert SameFrame(At(r, a, b), At(half, a, b)) && SameFrame(At(half, a, b), At(m, a, b));
      }
    }
    assert r.dir == m.dir;
    CountsDetermined(m, r, held);
    var k :| 0 <= k < n && ViewOf(half) == EagerCopy(ViewOf(m), fd, td, k, 0);
    UndoneView(m, fd, td, n, k);
  }

  lemma TakeClean(m: Mem, held: seq<nat>, t: int)
    requires Inv(m, held) && FreeFrame(m, t)
    ensures CleanKept(m, Take(m, t))
  {
    TakeOthers(m, held, Take(m, t), t);
    SameEntriesClean(m, Take(m, t));
  }

  lemma SharedFrom(m0: Mem, m: Mem, r: Mem, fd: int, td: int, n: int)
    requires Shape(m0) && Shape(m) && Shape(r) && SameElsewhere(m0, m, -1, -1) && DirsShared(m, r, fd, td, n)
    requires fd == 0 ==> n <= 1
    requires fd == 0 || DIRS_PER_TASK <= fd
    ensures DirsShared(m0, r, fd, td, n)
  {
    forall a | td <= a < td + n
      ensures DirShared(m0, r, fd, td, a)
    {
      assert DirShared(m, r, fd, td, a);
      var d := fd + a - td;
      forall j | 0 <= j < RowLen(d)
        ensures SameFrame(At(r, a, j), At(m0, d, j))
      {
        assert Visible(d, j);
        assert SameFrame(At(m, d, j), At(m0, d, j));
      }
    }
  }

  lemma SharedNow(m: Mem, r: Mem, fd: int, td: int, n: int)
    requires Shape(m) && Shape(r) && DirsShared(m, r, fd, td, n) && SameOutside(m, r, td, n)
    requires (fd == 0 && n <= 1) || DIRS_PER_TASK <= fd
    requires fd + n <= td || td + n <= fd
    ensures DirsShared(r, r, fd, td, n)
  {
    forall a | td <= a < td + n
      ensures DirShared(r, r, fd, td, a)
    {
      assert DirShared(m, r, fd, td, a);
      var d := fd + a - td;
      forall j | 0 <= j < RowLen(d)
        ensures SameFrame(At(r, a, j), At(r, d, j))
      {
        assert Visible(d, j);
        assert SameFrame(At(r, d, j), At(m, d, j));
      }
    }
  }

  lemma InheritedFrom(m0: Mem, m: Mem, r: Mem, fd: int, td: int, n: int)
    requires Shape(m0) && Shape(m) && Shape(r) && SameElsewhere(m0, m, -1, -1) && CleanKept(m0, m)
    requires DirsShared(m, r, fd, td, n) && CleanCopied(m, r, fd, td, n, 0) && SameOutside(m, r, td, n)
    requires (fd == 0 && n <= 1) || DIRS_PER_TASK <= fd
    requires fd + n <= td || td + n <= fd
    ensures Inherited(m0, r, fd, td, n)
  {
    hide DirsShared, CleanCopied, CleanKept, SameElsewhere, SameOutside;
    SharedFrom(m0, m, r, fd, td, n);
    SharedNow(m, r, fd, td, n);
    CopiedLater(m0, m, r, fd, td, n);
  }

  lemma UndoneClean(m0: Mem, m: Mem, half: Mem, freed: Mem, r: Mem, td: int, n: int)
    requires Shape(m0) && Shape(m) && Shape(half) && Shape(freed) && Shape(r) && 0 <= td && td + n <= NR_DIRS
    requires CleanKept(m0, m) && CleanOutside(m, half, td, n) && CleanKept(half, freed) && NoTables(freed, td, n)
    requires r.dir == freed.dir && r.table == freed.table
    ensures CleanKept(m0, r)
  {
    forall a, b | Clean(r, a, b)
      ensures Clean(m0, a, b)
    {
      assert Clean(freed, a, b);
      assert Clean(half, a, b) && Clean(m, a, b);
    }
  }

  lemma UndoneView(m: Mem, fd: int, td: int, n: int, k: int)
    requires Shape(m) && 0 <= td && 0 <= k < n && NoTables(m, td, n)
    ensures Without(EagerCopy(ViewOf(m), fd, td, k, 0), td, n, 0) == ViewOf(m)
  {
    hide CowMemory.EagerCopy, PageModel.ViewOf;
    var v := ViewOf(m);
    var a := Without(EagerCopy(v, fd, td, k, 0), td, n, 0);
    forall q: (int, int)
      ensures (q in a <==> q in v) && (q in a ==> a[q] == v[q])
    {
      EagerAt(v, fd, td, k, 0, q);
      if q in v {
        ViewKeys(m, q);
      }
    }
  }

  lemma SlotsForked(m0: Mem, held: seq<nat>, r: Mem, t: int, ts: seq<Task>, p: int, c: int)
    requires Inv(m0, held) && SlotsOk(m0, held, ts) && FreeFrame(m0, t) && Kept(held, t) == 0 && Shape(r)
    requires 0 <= p < NR_TASKS && ts[p].Task? && !ts[p].zombie && 1 <= c < NR_TASKS && ts[c].NoTask?
    requires forall d ::
               0 <= d < NR_DIRS && !(c * DIRS_PER_TASK <= d < c * DIRS_PER_TASK + Dirs(ts[p].limit)) ==>
                 r.dir[d] == m0.dir[d]
    ensures SlotsOk(r, Hold(held, t), ts[c := ts[p].(page := t)])
  {
    var h := Hold(held, t);
    var us := ts[c := ts[p].(page := t)];
    forall s | 1 <= s < NR_TASKS
      ensures SlotClear(r, us[s], s)
    {
      assert SlotClear(m0, ts[s], s) && SlotClear(m0, ts[c], c);
    }
    assert forall f :: LOW <= f < FRAMES && f != t ==> Kept(h, f) == Kept(held, f);
  }

  lemma OutsideDirs(m: Mem, r: Mem, d0: int, n: int)
    requires Shape(m) && Shape(r) && SameOutside(m, r, d0, n)
    ensures forall d :: 0 <= d < NR_DIRS && !(d0 <= d < d0 + n) ==> r.dir[d] == m.dir[d]
  {
  }

  lemma UnmappedKey(m: Mem, held: seq<nat>, s: int, page: int)
    requires Inv(m, held) && 1 <= s < NR_TASKS && 0 <= page < DIRS_PER_TASK * ENTRIES && Key(s, page) !in ViewOf(m)
    ensures User(DirOf(s, page), page % ENTRIES) && At(m, DirOf(s, page), page % ENTRIES) == Absent
  {
    SeenIff(m, held, DirOf(s, page), page % ENTRIES);
  }

  lemma MappedKey(m: Mem, held: seq<nat>, s: int, page: int)
    requires Inv(m, held) && 1 <= s < NR_TASKS && 0 <= page < DIRS_PER_TASK * ENTRIES && Key(s, page) in ViewOf(m)
    ensures User(DirOf(s, page), page % ENTRIES) && At(m, DirOf(s, page), page % ENTRIES).Present?
  {
    SeenIff(m, held, DirOf(s, page), page % ENTRIES);
  }

  /** A new table inside a live task's limit keeps the slots in order. */
  lemma SlotsWithTable(m: Mem, r: Mem, held: seq<nat>, ts: seq<Task>, s: int, d: int)
    requires Shape(m) && Shape(r) && |held| == PAGING_PAGES && SlotsOk(m, held, ts) && OnlyDir(m, r, d)
    requires 1 <= s < NR_TASKS && ts[s].Task? && !ts[s].zombie
    requires s * DIRS_PER_TASK <= d < s * DIRS_PER_TASK + Extent(ts[s])
    ensures SlotsOk(r, held, ts)
  {
    forall u | 1 <= u < NR_TASKS
      ensures SlotClear(r, ts[u], u)
    {
      assert SlotClear(m, ts[u], u) && SlotClear(m, ts[s], s);
    }
  }

  lemma WithoutTwice(m: Mem, d0: int, code: int, data: int)
    requires Shape(m) && 0 <= code <= data
    ensures Without(Without(ViewOf(m), d0, code, 0), d0, data, 0) == Without(ViewOf(m), d0, data, 0)
  {
    assert forall q :: q in ViewOf(m) ==> q.1 >= 0;
  }

  lemma FreedAll(m: Mem, r: Mem, d0: int, n: int)
    requires Shape(m) && Shape(r) && 0 <= n <= DIRS_PER_TASK && 0 <= d0
    requires NoTables(m, d0 + n, DIRS_PER_TASK - n) && NoTables(r, d0, n)
    requires forall d :: 0 <= d < NR_DIRS && !(d0 <= d < d0 + n) ==> r.dir[d] == m.dir[d]
    ensures NoTables(r, d0, DIRS_PER_TASK)
    ensures Without(ViewOf(m), d0, n, 0) == Without(ViewOf(m), d0, DIRS_PER_TASK, 0)
  {
    forall q | q in ViewOf(m)
      ensures q.1 >= 0 && !(d0 + n <= q.0 < d0 + DIRS_PER_TASK)
    {
      ViewKeys(m, q);
    }
  }

  lemma SlotsEmptied(m: Mem, r: Mem, held: seq<nat>, ts: seq<Task>, s: int, t: Task)
    requires Shape(m) && Shape(r) && |held| == PAGING_PAGES && SlotsOk(m, held, ts)
    requires 1 <= s < NR_TASKS && ts[s].Task? && t.Task? && t.page == ts[s].page && 0 <= t.limit <= SLOT_SIZE
    requires NoTables(r, s * DIRS_PER_TASK, DIRS_PER_TASK)
    requires forall d ::
               0 <= d < NR_DIRS && !(s * DIRS_PER_TASK <= d < (s + 1) * DIRS_PER_TASK) ==> r.dir[d] == m.dir[d]
    ensures SlotsOk(r, held, ts[s := t])
  {
    var us := ts[s := t];
    forall u | 1 <= u < NR_TASKS
      ensures SlotClear(r, us[u], u)
    {
      assert SlotClear(m, ts[u], u);
    }
  }

  lemma SlotsReleased(m: Mem, held: seq<nat>, r: Mem, ts: seq<Task>, s: int)
    requires Shape(m) && Shape(r) && |held| == PAGING_PAGES && SlotsOk(m, held, ts) && r.dir == m.dir
    requires 1 <= s < NR_TASKS && ts[s].Task? && ts[s].zombie && Kept(held, ts[s].page) > 0
    ensures SlotsOk(r, Unhold(held, ts[s].page), ts[s := NoTask])
  {
    var us := ts[s := NoTask];
    forall u | 1 <= u < NR_TASKS
      ensures SlotClear(r, us[u], u)
    {
      assert SlotClear(m, ts[u], u);
    }
    assert forall f :: LOW <= f < FRAMES && f != ts[s].page ==> Kept(Unhold(held, ts[s].page), f) == Kept(held, f);
  }
}
