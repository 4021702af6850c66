/** Page sharing against the executables: a task that takes a page over from
    another should see what do_no_page would have read from the disk.  It does
    exactly as long as every clean page still shows its executable's bytes, and
    only verify_area's copies and kernel stores can put an end to that. */
module ExecImages {
  import opened PageModel
  import opened PageSteps
  import opened KernelStores
  import opened CleanPages
  import opened CowMemory
  import opened CowProcesses

  /** `image(e, page)` is what bread_page reads for a page of executable `e`, and
      `end(e)` where its image ends. */
  datatype Binaries = Binaries(image: (int, int) -> Page, end: int -> int)

  function SlotOf(d: int): int {
    d / DIRS_PER_TASK
  }

  function PageOf(d: int, i: int): int {
    d % DIRS_PER_TASK * ENTRIES + i
  }

  ghost predicate Ends(bin: Binaries, w: World) {
    && |w.task| == NR_TASKS
    && forall s :: 0 <= s < NR_TASKS && w.task[s].Task? && w.task[s].exec != 0
                   ==> w.task[s].endData == bin.end(w.task[s].exec)
  }

  /** Reads and execs deliver what the executables hold. */
  ghost predicate Honest(bin: Binaries, w: World, op: Op) {
    Enabled(w, op) ==>
      match op
      case Fault(s, page, image) => Backed(w.task[s], page) ==> image == bin.image(w.task[s].exec, page)
      case Exec(_, _, exec, endData) => exec != 0 ==> endData == bin.end(exec)
      case _ => true
  }

  /** What do_no_page would read for a page of the task. */
  ghost function Loaded(bin: Binaries, t: Task, page: int): Page
    requires t.Task?
  {
    Demand(t, page, bin.image(t.exec, page))
  }

  /** The page at (d, i), if it comes from an executable, is as it would be read. */
  ghost predicate Shown(bin: Binaries, w: World, d: int, i: int)
    requires |w.task| == NR_TASKS && User(d, i)
  {
    var t, page := w.task[SlotOf(d)], PageOf(d, i);
    Backed(t, page) ==> (d, i) in w.view && w.view[(d, i)] == Loaded(bin, t, page)
  }

  /** Whatever may be shared shows its executable's bytes. */
  ghost predicate Shows(bin: Binaries, x: Sys) {
    && SysOk(x) && |WorldOf(x).task| == NR_TASKS && Ends(bin, WorldOf(x))
    && forall d, i :: Clean(x.m, d, i) ==> Shown(bin, WorldOf(x), d, i)
  }

  // ---- what each step does to that ----

  /** verify_area: every page it copies shows its image. */
  ghost predicate CopiesShown(bin: Binaries, x: Sys, y: Sys)
    requires SysOk(x) && Shape(y.m) && |WorldOf(x).task| == NR_TASKS
  {
    forall d, i :: Copied(x.m, y.m, d, i) ==> Shown(bin, WorldOf(x), d, i)
  }

  /** A kernel store: the byte is there already, or no clean page of an executable
      shares the frame. */
  ghost predicate Harmless(x: Sys, d: int, i: int, off: int, v: int)
    requires SysOk(x) && 0 <= off < PAGE_SIZE
  {
    Seen(x.m, d, i) && (PageAt(x.m, d, i)[off] == v || forall a, b :: !Spoils(x, d, i, a, b))
  }

  ghost predicate Spoils(x: Sys, d: int, i: int, a: int, b: int)
    requires SysOk(x) && Seen(x.m, d, i)
  {
    Shares(x.m, d, i, a, b) && Clean(x.m, a, b) && Backed(x.task[SlotOf(a)], PageOf(a, b))
  }

  /** The exact condition under which a step keeps Shows. */
  ghost predicate ImageKept(bin: Binaries, x: Sys, op: Op, y: Sys)
    requires SysOk(x) && SysOk(y) && |WorldOf(x).task| == NR_TASKS
  {
    Enabled(WorldOf(x), op) ==>
      match op
      case Verify(_, _, _) => CopiesShown(bin, x, y)
      case KernelStore(s, page, off, v) => Harmless(x, DirOf(s, page), page % ENTRIES, off, v)
      case _ => true
  }

  predicate SameProgram(t: Task, u: Task) {
    t.Task? && u.Task? && t.exec == u.exec && t.endData == u.endData
  }

  /** A page that stands where a shown page stood, in a task of the same program. */
  lemma CarryShown(bin: Binaries, w: World, u: World, c: int, d: int, i: int)
    requires |w.task| == |u.task| == NR_TASKS && User(c, i) && User(d, i) && c % DIRS_PER_TASK == d % DIRS_PER_TASK
    requires SameProgram(w.task[SlotOf(c)], u.task[SlotOf(d)])
    requires (c, i) in w.view && (d, i) in u.view && u.view[(d, i)] == w.view[(c, i)]
    ensures Shown(bin, w, c, i) <==> Shown(bin, u, d, i)
  {
    var t, v, page := w.task[SlotOf(c)], u.task[SlotOf(d)], PageOf(c, i);
    if Backed(t, page) {
      assert Demand(t, page, bin.image(t.exec, page)) == Demand(v, page, bin.image(t.exec, page));
    }
  }

  lemma SlotKey(s: int, page: int)
    requires 1 <= s < NR_TASKS && 0 <= page < DIRS_PER_TASK * ENTRIES
    ensures User(DirOf(s, page), page % ENTRIES) && SlotOf(DirOf(s, page)) == s
    ensures PageOf(DirOf(s, page), page % ENTRIES) == page
  {
    assert DirOf(s, page) / DIRS_PER_TASK == s && DirOf(s, page) % DIRS_PER_TASK == page / ENTRIES;
  }

  /** A clean entry is in the view, and its slot holds a living task. */
  lemma CleanInView(x: Sys, d: int, i: int)
    requires SysOk(x) && Clean(x.m, d, i)
    ensures (d, i) in WorldOf(x).view && |x.task| == NR_TASKS && 1 <= SlotOf(d) < NR_TASKS
    ensures x.task[SlotOf(d)].Task? && !x.task[SlotOf(d)].zombie
  {
    assert Visible(d, i);
    SeenIff(x.m, x.held, d, i);
    var s := SlotOf(d);
    assert SlotClear(x.m, x.task[s], s);
  }

  lemma StripAt(x: Sys, s: int)
    requires SysOk(x) && 0 <= s < NR_TASKS
    ensures |x.task| == |WorldOf(x).task| == NR_TASKS
    ensures WorldOf(x).task[s].Task? <==> x.task[s].Task?
    ensures x.task[s].Task? ==> SameProgram(x.task[s], WorldOf(x).task[s])
    ensures forall page :: Backed(x.task[s], page) <==> Backed(WorldOf(x).task[s], page)
  {
  }

  /** The entry's page is what it was, and so is the program of its task. */
  ghost predicate SameSeen(x: Sys, y: Sys, d: int, i: int)
    requires SysOk(x) && SysOk(y)
  {
    && |x.task| == |y.task| == NR_TASKS && User(d, i)
    && (y.task[SlotOf(d)].NoTask? || SameProgram(x.task[SlotOf(d)], y.task[SlotOf(d)]))
    && (d, i) in WorldOf(x).view && (d, i) in WorldOf(y).view && WorldOf(y).view[(d, i)] == WorldOf(x).view[(d, i)]
  }

  lemma CarryEntry(bin: Binaries, x: Sys, y: Sys, d: int, i: int)
    requires SysOk(x) && SysOk(y) && SameSeen(x, y, d, i)
    ensures |WorldOf(x).task| == |WorldOf(y).task| == NR_TASKS
    ensures y.task[SlotOf(d)].Task? ==> (Shown(bin, WorldOf(x), d, i) <==> Shown(bin, WorldOf(y), d, i))
    ensures y.task[SlotOf(d)].NoTask? ==> Shown(bin, WorldOf(y), d, i)
  {
    StripAt(x, SlotOf(d));
    StripAt(y, SlotOf(d));
    hide SysOk, ViewOf;
    if y.task[SlotOf(d)].Task? {
      CarryShown(bin, WorldOf(x), WorldOf(y), d, d, i);
    }
  }

  /** Views and tasks as in the eager model. */
  lemma EagerParts(x: Sys, op: Op, r: int, g: bool, y: Sys)
    requires Outcome(x, op, r, g, y) && Enabled(WorldOf(x), op) && !op.KernelStore?
    ensures WorldOf(y) == EagerStep(WorldOf(x), op, r) && Traced(x, op, r, y)
  {
  }

  /** Entries outside the target slot, and all of them after a failure. */
  lemma ElsewhereSame(x: Sys, op: Op, r: int, g: bool, y: Sys, d: int, i: int)
    requires Outcome(x, op, r, g, y) && Enabled(WorldOf(x), op) && !op.KernelStore?
    requires Clean(x.m, d, i) && Clean(y.m, d, i) && (SlotOf(d) != Target(op) || r < 0)
    ensures SameSeen(x, y, d, i)
  {
    CleanInView(x, d, i);
    CleanInView(y, d, i);
    StripAt(x, SlotOf(d));
    StripAt(y, SlotOf(d));
    LimitsKnown(x);
    hide SysOk, Traced, Scarce, ShareOk, Apart, Guards;
    if r >= 0 {
      StepIsolated(WorldOf(x), op, r, (d, i));
      OtherTask(WorldOf(x), op, r, SlotOf(d));
    }
  }

  lemma LimitsKnown(x: Sys)
    requires SysOk(x)
    ensures LimitsOk(WorldOf(x))
  {
    TasksKnown(x.m, x.held, x.task);
  }

  lemma OtherTask(w: World, op: Op, r: int, s: int)
    requires Enabled(w, op) && 0 <= s < NR_TASKS && s != Target(op)
    ensures |EagerStep(w, op, r).task| == NR_TASKS && EagerStep(w, op, r).task[s] == w.task[s]
  {
  }

  lemma TracedShapes(x: Sys, op: Op, r: int, g: bool, y: Sys)
    requires Outcome(x, op, r, g, y)
    ensures SysOk(x) && SysOk(y) && Shape(x.m) && Shape(y.m) && |x.task| == |y.task| == NR_TASKS
    ensures |WorldOf(x).task| == |WorldOf(y).task| == NR_TASKS
  {
  }

  lemma ShownAt(bin: Binaries, x: Sys, d: int, i: int)
    requires Shows(bin, x) && Shape(x.m) && Clean(x.m, d, i)
    ensures |WorldOf(x).task| == NR_TASKS && Shown(bin, WorldOf(x), d, i)
  {
  }

  /** A page of the child that stands for one of the parent. */
  lemma ChildShown(bin: Binaries, w: World, op: Op, u: World, d: int, i: int)
    requires Enabled(w, op) && op.Fork? && u == EagerStep(w, op, 0) && |u.task| == NR_TASKS
    requires 0 <= Extent(w.task[op.parent]) <= DIRS_PER_TASK && (op.parent == 0 ==> Extent(w.task[op.parent]) <= 1)
    requires InCopy(d, i, op.child * DIRS_PER_TASK, Extent(w.task[op.parent]), 0)
    requires User(d, i) && (d, i) in u.view
    requires var c := (op.parent - op.child) * DIRS_PER_TASK + d;
               User(c, i) && Shown(bin, w, c, i) && w.task[op.parent].Task?
    ensures Shown(bin, u, d, i)
  {
    var fd, td, n := op.parent * DIRS_PER_TASK, op.child * DIRS_PER_TASK, Extent(w.task[op.parent]);
    var c := fd + d - td;
    EagerAt(w.view, fd, td, n, 0, (d, i));
    assert SlotOf(d) == op.child && SlotOf(c) == op.parent;
    hide Shown, EagerCopy;
    CarryShown(bin, w, u, c, d, i);
  }

  lemma ForkFacts(x: Sys, op: Op, g: bool, y: Sys)
    requires Outcome(x, op, 0, g, y) && Enabled(WorldOf(x), op) && op.Fork?
    ensures Shape(x.m) && Shape(y.m) && |x.task| == |WorldOf(x).task| == |WorldOf(y).task| == NR_TASKS
    ensures 0 <= op.parent < NR_TASKS && x.task[op.parent].Task? && WorldOf(x).task[op.parent].Task?
    ensures 0 <= Extent(WorldOf(x).task[op.parent]) <= DIRS_PER_TASK
    ensures op.parent == 0 ==> Extent(WorldOf(x).task[op.parent]) <= 1
    ensures CleanCopied(x.m, y.m, op.parent * DIRS_PER_TASK, op.child * DIRS_PER_TASK,
                        Extent(WorldOf(x).task[op.parent]), 0)
    ensures DirsShared(y.m, y.m, op.parent * DIRS_PER_TASK, op.child * DIRS_PER_TASK,
                       Extent(WorldOf(x).task[op.parent]))
    ensures WorldOf(y) == EagerStep(WorldOf(x), op, 0)
  {
    TracedShapes(x, op, 0, g, y);
    EagerParts(x, op, 0, g, y);
    StripAt(x, op.parent);
    TasksKnown(x.m, x.held, x.task);
    hide DirsShared, CleanCopied;
    assert Inherited(x.m, y.m, op.parent * DIRS_PER_TASK, op.child * DIRS_PER_TASK, Extent(x.task[op.parent]));
    assert Extent(x.task[op.parent]) == Extent(WorldOf(x).task[op.parent]);
  }

  /** fork: the child's page stands for the parent's. */
  lemma ForkShown(bin: Binaries, x: Sys, op: Op, g: bool, y: Sys, d: int, i: int)
    requires Outcome(x, op, 0, g, y) && Enabled(WorldOf(x), op) && op.Fork?
    requires Shows(bin, x) && Shape(x.m) && Shape(y.m) && Clean(y.m, d, i) && |WorldOf(y).task| == NR_TASKS
    ensures Shown(bin, WorldOf(y), d, i)
  {
    hide SysOk, Outcome, WorldOf, Shown, Shows, Shareable, EagerStep, CleanCopied, DirsShared, Enabled;
    TracedShapes(x, op, 0, g, y);
    ForkFacts(x, op, g, y);
    CleanInView(y, d, i);
    var n := Extent(WorldOf(x).task[op.parent]);
    CopiedAt(x.m, y.m, op.parent * DIRS_PER_TASK, op.child * DIRS_PER_TASK, n, 0, d, i);
    if InCopy(d, i, op.child * DIRS_PER_TASK, n, 0) {
      ShownAt(bin, x, op.parent * DIRS_PER_TASK + d - op.child * DIRS_PER_TASK, i);
      ChildShown(bin, WorldOf(x), op, WorldOf(y), d, i);
    } else {
      NotTheChild(x, op, d, i);
      ElsewhereSame(x, op, 0, g, y, d, i);
      ShownAt(bin, x, d, i);
      CarryEntry(bin, x, y, d, i);
    }
  }

  lemma NotTheChild(x: Sys, op: Op, d: int, i: int)
    requires SysOk(x) && Clean(x.m, d, i) && op.Fork? && Enabled(WorldOf(x), op)
    ensures SlotOf(d) != op.child
  {
    CleanInView(x, d, i);
    StripAt(x, SlotOf(d));
  }

  /** The entry a step brings in: a copy for a fork, the missing page for a fault. */
  ghost predicate NewEntry(op: Op, r: int, d: int, i: int) {
    r >= 0 && (op.Fork? || (op.Fault? && d == DirOf(op.slot, op.page) && i == op.page % ENTRIES))
  }

  /** Any other clean entry was clean and showed the same page. */
  lemma StepSame(x: Sys, op: Op, r: int, g: bool, y: Sys, d: int, i: int)
    requires Outcome(x, op, r, g, y) && Enabled(WorldOf(x), op) && !op.KernelStore? && !op.Verify?
    requires Shape(x.m) && Shape(y.m) && Clean(y.m, d, i) && !NewEntry(op, r, d, i)
    ensures Clean(x.m, d, i) && SysOk(x) && SysOk(y) && SameSeen(x, y, d, i)
  {
    TracedShapes(x, op, r, g, y);
    EagerParts(x, op, r, g, y);
    CleanBefore(x, op, r, y, d, i);
    CleanInView(x, d, i);
    CleanInView(y, d, i);
    if SlotOf(d) != Target(op) || r < 0 {
      hide *;
      ElsewhereSame(x, op, r, g, y, d, i);
    } else {
      hide SysOk, Outcome, Traced, Scarce, ShareOk, Apart, Guards, ViewOf;
      TargetSame(x, op, r, y, d, i);
    }
  }

  lemma CleanBefore(x: Sys, op: Op, r: int, y: Sys, d: int, i: int)
    requires SysOk(x) && SysOk(y) && Enabled(WorldOf(x), op) && Traced(x, op, r, y)
    requires !op.KernelStore? && !op.Verify? && Shape(x.m) && Shape(y.m) && Clean(y.m, d, i) && !NewEntry(op, r, d, i)
    ensures Clean(x.m, d, i) && (op.Store? && r >= 0 ==> (d, i) != Key(op.slot, op.page))
  {
    hide SysOk, Enabled, Chosen, Inherited, Shareable, ViewOf;
  }

  lemma TargetSame(x: Sys, op: Op, r: int, y: Sys, d: int, i: int)
    requires SysOk(x) && SysOk(y) && Shape(x.m) && Shape(y.m) && |x.task| == |y.task| == NR_TASKS
    requires Enabled(WorldOf(x), op) && !op.KernelStore? && !op.Verify? && !NewEntry(op, r, d, i)
    requires SlotOf(d) == Target(op) && r >= 0 && User(d, i)
    requires x.task[SlotOf(d)].Task? && !x.task[SlotOf(d)].zombie && y.task[SlotOf(d)].Task?
    requires WorldOf(y) == EagerStep(WorldOf(x), op, r)
    requires (d, i) in WorldOf(x).view && (d, i) in WorldOf(y).view
    requires op.Store? ==> (d, i) != Key(op.slot, op.page)
    ensures SameSeen(x, y, d, i)
  {
    hide SysOk, WorldOf, Enabled, EagerStep;
    StripAt(x, SlotOf(d));
    StripAt(y, SlotOf(d));
    TargetWorld(WorldOf(x), op, r, d, i);
  }

  lemma TargetWorld(w: World, op: Op, r: int, d: int, i: int)
    requires Enabled(w, op) && !op.KernelStore? && !op.Verify? && !NewEntry(op, r, d, i)
    requires SlotOf(d) == Target(op) && r >= 0 && User(d, i) && (d, i) in w.view && (d, i) in EagerStep(w, op, r).view
    requires op.Store? ==> (d, i) != Key(op.slot, op.page)
    ensures |w.task| == |EagerStep(w, op, r).task| == NR_TASKS
    ensures EagerStep(w, op, r).task[SlotOf(d)].Task?
      ==> SameProgram(w.task[SlotOf(d)], EagerStep(w, op, r).task[SlotOf(d)])
    ensures EagerStep(w, op, r).view[(d, i)] == w.view[(d, i)]
  {
    hide EagerCopy, Demand, Extent;
  }

  /** The giver is clean, runs the program of the faulting task, and its page is taken over. */
  ghost predicate GivenBy(x: Sys, op: Op, r: int, y: Sys)
    requires Shape(x.m) && Shape(y.m) && op.Fault? && |WorldOf(x).task| == NR_TASKS && 1 <= op.slot < NR_TASKS
    requires WorldOf(x).task[op.slot].Task? && Key(op.slot, op.page) in WorldOf(y).view
  {
    && 1 <= r < NR_TASKS && WorldOf(x).task[r].Task? && Key(r, op.page) in WorldOf(x).view
    && Clean(x.m, DirOf(r, op.page), op.page % ENTRIES)
    && WorldOf(x).task[r].exec == WorldOf(x).task[op.slot].exec && Backed(WorldOf(x).task[op.slot], op.page)
    && WorldOf(y).view[Key(op.slot, op.page)] == WorldOf(x).view[Key(r, op.page)]
  }

  /** What a fault brings in: the page read from the disk, or the giver's. */
  lemma FaultPage(x: Sys, op: Op, r: int, g: bool, y: Sys)
    requires Outcome(x, op, r, g, y) && Enabled(WorldOf(x), op) && op.Fault? && r >= 0
    ensures Shape(x.m) && Shape(y.m) && |x.task| == |y.task| == |WorldOf(x).task| == |WorldOf(y).task| == NR_TASKS
    ensures WorldOf(x).task[op.slot].Task? && WorldOf(y).task == WorldOf(x).task
    ensures 1 <= op.slot < NR_TASKS && 0 <= op.page < DIRS_PER_TASK * ENTRIES
    ensures Key(op.slot, op.page) in WorldOf(y).view
    ensures r == 0 ==> WorldOf(y).view[Key(op.slot, op.page)] == Demand(WorldOf(x).task[op.slot], op.page, op.image)
    ensures r > 0 ==> GivenBy(x, op, r, y)
  {
    TracedShapes(x, op, r, g, y);
    EagerParts(x, op, r, g, y);
    hide SysOk, Traced, ViewOf, GivenBy, EagerStep, Enabled, WorldOf;
    LimitsKnown(x);
    FaultWorld(WorldOf(x), op, r);
    if r > 0 {
      GiverKnown(x, op, r, y);
    }
  }

  lemma FaultWorld(w: World, op: Op, r: int)
    requires Enabled(w, op) && op.Fault? && r >= 0 && LimitsOk(w) && ShareOk(w, op, r)
    ensures |w.task| == NR_TASKS && 1 <= op.slot < NR_TASKS && 0 <= op.page < DIRS_PER_TASK * ENTRIES
    ensures w.task[op.slot].Task? && EagerStep(w, op, r).task == w.task
    ensures Key(op.slot, op.page) in EagerStep(w, op, r).view
    ensures r == 0 ==> EagerStep(w, op, r).view[Key(op.slot, op.page)] == Demand(w.task[op.slot], op.page, op.image)
  {
    hide Demand;
  }

  lemma GiverKnown(x: Sys, op: Op, r: int, y: Sys)
    requires SysOk(x) && SysOk(y) && Enabled(WorldOf(x), op) && op.Fault? && r > 0 && Traced(x, op, r, y)
    requires Shape(x.m) && Shape(y.m) && |x.task| == |WorldOf(x).task| == NR_TASKS && 1 <= op.slot < NR_TASKS
    requires ShareOk(WorldOf(x), op, r) && WorldOf(y) == EagerStep(WorldOf(x), op, r)
    requires WorldOf(x).task[op.slot].Task? && 0 <= op.page < DIRS_PER_TASK * ENTRIES
    ensures Key(op.slot, op.page) in WorldOf(y).view && GivenBy(x, op, r, y)
  {
    StripAt(x, r);
    StripAt(x, op.slot);
    SlotKey(r, op.page);
    hide SysOk, Shareable, ViewOf, CleanBut;
  }

  /** Sharing and reading come to the same: with honest disks the page a fault brings
      in is what do_no_page reads, for a page shared exactly if the giver's shows it. */
  lemma FaultExact(bin: Binaries, x: Sys, op: Op, r: int, g: bool, y: Sys)
    requires Outcome(x, op, r, g, y) && Enabled(WorldOf(x), op) && op.Fault? && r >= 0
    requires |WorldOf(x).task| == NR_TASKS && Ends(bin, WorldOf(x)) && Honest(bin, WorldOf(x), op)
    ensures var w, v, k := WorldOf(x), WorldOf(y).view, Key(op.slot, op.page);
      && k in v && w.task[op.slot].Task?
      && Demand(w.task[op.slot], op.page, op.image) == Loaded(bin, w.task[op.slot], op.page)
      && (r == 0 ==> v[k] == Loaded(bin, w.task[op.slot], op.page))
      && (r > 0 ==> 1 <= r < NR_TASKS && User(DirOf(r, op.page), op.page % ENTRIES)
                    && (v[k] == Loaded(bin, w.task[op.slot], op.page)
                        <==> Shown(bin, w, DirOf(r, op.page), op.page % ENTRIES)))
  {
    hide SysOk, Shareable, WorldOf, Outcome, Demand, Shown, Ends, Honest, Enabled;
    FaultPage(x, op, r, g, y);
    HonestPage(bin, WorldOf(x), op);
    if r > 0 {
      GivenShown(bin, WorldOf(x), op.slot, r, op.page);
    }
  }

  lemma HonestPage(bin: Binaries, w: World, op: Op)
    requires Enabled(w, op) && op.Fault? && Honest(bin, w, op) && |w.task| == NR_TASKS
    ensures w.task[op.slot].Task?
    ensures Demand(w.task[op.slot], op.page, op.image) == Loaded(bin, w.task[op.slot], op.page)
  {
  }

  lemma GivenShown(bin: Binaries, w: World, s: int, r: int, page: int)
    requires Ends(bin, w) && 1 <= s < NR_TASKS && 1 <= r < NR_TASKS && 0 <= page < DIRS_PER_TASK * ENTRIES
    requires w.task[s].Task? && w.task[r].Task? && w.task[r].exec == w.task[s].exec && Backed(w.task[s], page)
    requires Key(r, page) in w.view
    ensures User(DirOf(r, page), page % ENTRIES)
    ensures Shown(bin, w, DirOf(r, page), page % ENTRIES) <==> w.view[Key(r, page)] == Loaded(bin, w.task[s], page)
  {
    SlotKey(r, page);
    assert w.task[r].endData == w.task[s].endData;
  }

  /** With every clean page shown, both ways give the same page. */
  lemma FaultSame(bin: Binaries, x: Sys, op: Op, r: int, g: bool, y: Sys)
    requires Outcome(x, op, r, g, y) && Enabled(WorldOf(x), op) && op.Fault? && r >= 0
    requires Shows(bin, x) && Honest(bin, WorldOf(x), op)
    ensures Key(op.slot, op.page) in WorldOf(y).view && WorldOf(x).task[op.slot].Task?
    ensures WorldOf(y).view[Key(op.slot, op.page)] == Demand(WorldOf(x).task[op.slot], op.page, op.image)
      == Loaded(bin, WorldOf(x).task[op.slot], op.page)
  {
    FaultPage(x, op, r, g, y);
    FaultExact(bin, x, op, r, g, y);
    if r > 0 {
      ShownAt(bin, x, DirOf(r, op.page), op.page % ENTRIES);
    }
  }

  lemma FaultShown(bin: Binaries, x: Sys, op: Op, r: int, g: bool, y: Sys)
    requires Outcome(x, op, r, g, y) && Enabled(WorldOf(x), op) && op.Fault? && r >= 0
    requires Shows(bin, x) && Honest(bin, WorldOf(x), op) && |WorldOf(y).task| == NR_TASKS
    ensures User(DirOf(op.slot, op.page), op.page % ENTRIES)
    ensures Shown(bin, WorldOf(y), DirOf(op.slot, op.page), op.page % ENTRIES)
  {
    hide SysOk, Shareable, WorldOf, Outcome, Enabled, Shows;
    FaultPage(x, op, r, g, y);
    FaultSame(bin, x, op, r, g, y);
    SlotKey(op.slot, op.page);
  }

  /** verify_area changes no view and no task; it moves pages to clean copies. */
  lemma VerifyEntry(x: Sys, op: Op, r: int, g: bool, y: Sys, d: int, i: int)
    requires Outcome(x, op, r, g, y) && Enabled(WorldOf(x), op) && op.Verify?
    ensures Shape(x.m) && Shape(y.m) && SysOk(x) && SysOk(y)
    ensures Clean(y.m, d, i) ==> Clean(x.m, d, i) || Copied(x.m, y.m, d, i)
    ensures Copied(x.m, y.m, d, i) ==> Clean(y.m, d, i)
    ensures Clean(y.m, d, i) ==> SameSeen(x, y, d, i) && y.task[SlotOf(d)].Task?
  {
    TracedShapes(x, op, r, g, y);
    EagerParts(x, op, r, g, y);
    if Clean(y.m, d, i) {
      CleanInView(y, d, i);
      StripAt(x, SlotOf(d));
      StripAt(y, SlotOf(d));
    }
    hide SysOk, ViewOf, Guarded;
    if User(d, i) {
      assert EntryVerified(x.m, y.m, d, i);
    }
  }

  lemma VerifyShows(bin: Binaries, x: Sys, op: Op, r: int, g: bool, y: Sys)
    requires Outcome(x, op, r, g, y) && Enabled(WorldOf(x), op) && op.Verify?
    requires Shows(bin, x) && Ends(bin, WorldOf(y))
    ensures Shape(y.m) && |WorldOf(x).task| == NR_TASKS
    ensures Shows(bin, y) <==> CopiesShown(bin, x, y)
  {
    TracedShapes(x, op, r, g, y);
    hide SysOk, Shareable, WorldOf, Outcome, Enabled, Shown, Copied, SameSeen;
    forall d, i | Copied(x.m, y.m, d, i)
      ensures User(d, i) && Clean(y.m, d, i) && (Shown(bin, WorldOf(y), d, i) <==> Shown(bin, WorldOf(x), d, i))
    {
      VerifyEntry(x, op, r, g, y, d, i);
      CarryEntry(bin, x, y, d, i);
    }
    forall d, i | Clean(y.m, d, i) && !Copied(x.m, y.m, d, i)
      ensures Shown(bin, WorldOf(y), d, i)
    {
      VerifyEntry(x, op, r, g, y, d, i);
      CarryEntry(bin, x, y, d, i);
    }
  }

  /** What can be checked before a verify_area: if each present page of the area is
      clean or has its frame to itself, every copy shows its image. */
  lemma VerifyGuard(bin: Binaries, x: Sys, op: Op, r: int, g: bool, y: Sys)
    requires Outcome(x, op, r, g, y) && Enabled(WorldOf(x), op) && op.Verify? && Shows(bin, x)
    requires forall d, i :: AreaPage(x, op, d, i) ==> Clean(x.m, d, i) || Guarded(x.m, d, i)
    ensures Shape(y.m) && |WorldOf(x).task| == NR_TASKS && CopiesShown(bin, x, y)
  {
    TracedShapes(x, op, r, g, y);
    forall d, i | Copied(x.m, y.m, d, i)
      ensures Shown(bin, WorldOf(x), d, i)
    {
      CopiedArea(x, op, r, g, y, d, i);
      ShownAt(bin, x, d, i);
    }
  }

  /** A present page of the area. */
  ghost predicate AreaPage(x: Sys, op: Op, d: int, i: int)
    requires SysOk(x) && op.Verify?
  {
    && User(d, i) && Visible(d, i) && At(x.m, d, i).Present?
    && FirstPage(op.start) <= d * ENTRIES + i < LastPage(op.start, op.size)
  }

  lemma CopiedArea(x: Sys, op: Op, r: int, g: bool, y: Sys, d: int, i: int)
    requires Outcome(x, op, r, g, y) && Enabled(WorldOf(x), op) && op.Verify? && Shape(x.m) && Shape(y.m)
    requires Copied(x.m, y.m, d, i)
    ensures AreaPage(x, op, d, i) && !Guarded(x.m, d, i)
  {
    hide SysOk, ViewOf, Guarded, Enabled;
    assert Verified(x.m, y.m, FirstPage(op.start), LastPage(op.start, op.size));
    assert EntryVerified(x.m, y.m, d, i);
  }

  /** For an area in one slot that condition can be put before the call in full: a
      verify_area that succeeds keeps Shows exactly if each present page of the area
      that has not its frame to itself shows its image. */
  lemma VerifyBefore(bin: Binaries, x: Sys, op: Op, g: bool, y: Sys)
    requires Outcome(x, op, 0, g, y) && Enabled(WorldOf(x), op) && op.Verify?
    requires OneSlot(FirstPage(op.start), LastPage(op.start, op.size))
    requires Shows(bin, x) && Ends(bin, WorldOf(y)) && |WorldOf(x).task| == NR_TASKS
    ensures Shows(bin, y)
      <==> forall d, i :: AreaPage(x, op, d, i) && !Guarded(x.m, d, i) ==> Shown(bin, WorldOf(x), d, i)
  {
    hide SysOk, WorldOf, Outcome, Enabled, Shown, Shows, Guarded, Copied, Visible;
    TracedShapes(x, op, 0, g, y);
    VerifyShows(bin, x, op, 0, g, y);
    forall d, i
      ensures Copied(x.m, y.m, d, i) <==> AreaPage(x, op, d, i) && !Guarded(x.m, d, i)
    {
      CopiedIff(x, op, g, y, d, i);
    }
  }

  lemma CopiedIff(x: Sys, op: Op, g: bool, y: Sys, d: int, i: int)
    requires Outcome(x, op, 0, g, y) && Enabled(WorldOf(x), op) && op.Verify? && Shape(x.m) && Shape(y.m)
    requires OneSlot(FirstPage(op.start), LastPage(op.start, op.size))
    ensures Copied(x.m, y.m, d, i) <==> AreaPage(x, op, d, i) && !Guarded(x.m, d, i)
  {
    if Copied(x.m, y.m, d, i) {
      CopiedArea(x, op, 0, g, y, d, i);
    } else {
      hide SysOk, ViewOf, Guarded, Enabled, Verified;
      assert Unshared(x.m, y.m, FirstPage(op.start), LastPage(op.start, op.size));
      if AreaPage(x, op, d, i) {
        assert EntryUnshared(x.m, y.m, d, i);
      }
    }
  }

  // ---- kernel stores ----

  /** The stored entry is dirty now; no other entry changes. */
  lemma StoredClean(m: Mem, held: seq<nat>, d: int, i: int, off: int, v: int, a: int, b: int)
    requires Inv(m, held) && Seen(m, d, i) && 0 <= off < PAGE_SIZE
    ensures Clean(Stored(m, d, i, off, v), a, b) <==> Clean(m, a, b) && (a, b) != (d, i)
  {
    var e := At(m, d, i).(dirty := true);
    if User(a, b) {
      assert Visible(a, b);
      if User(d, i) {
        AtAfterSetEntry(m, d, i, e);
      } else {
        KernelAt(m, i, e);
      }
      assert At(Stored(m, d, i, off, v), a, b) == At(SetEntry(m, d, i, e), a, b);
    }
  }

  /** A changed byte of a shown page no longer shows. */
  lemma SpoiltShown(bin: Binaries, w: World, u: World, d: int, i: int, off: int, v: int)
    requires |w.task| == NR_TASKS && User(d, i) && u.task == w.task && (d, i) in w.view && (d, i) in u.view
    requires 0 <= off < PAGE_SIZE && u.view[(d, i)] == w.view[(d, i)][off := v] && Shown(bin, w, d, i)
    ensures Shown(bin, u, d, i) <==> w.view[(d, i)][off] == v || !Backed(w.task[SlotOf(d)], PageOf(d, i))
  {
    assert u.view[(d, i)][off] == v;
    assert w.view[(d, i)][off] == v ==> u.view[(d, i)] == w.view[(d, i)];
  }

  lemma StoreFacts(x: Sys, op: Op, r: int, g: bool, y: Sys)
    requires Outcome(x, op, r, g, y) && Enabled(WorldOf(x), op) && op.KernelStore?
    ensures Shape(x.m) && |x.held| == PAGING_PAGES && Inv(x.m, x.held) && y.task == x.task && 0 <= op.off < PAGE_SIZE
    ensures StoredOnly(x.m, y.m, DirOf(op.slot, op.page), op.page % ENTRIES, op.off, op.value)
    ensures WorldOf(y).task == WorldOf(x).task
  {
    hide ViewOf;
  }

  /** A clean page after a kernel store was clean; it shows its image still unless it
      shares the frame and the byte was another. */
  lemma StoredShown(bin: Binaries, x: Sys, op: Op, r: int, g: bool, y: Sys, a: int, b: int)
    requires Outcome(x, op, r, g, y) && Enabled(WorldOf(x), op) && op.KernelStore? && Shows(bin, x)
    requires Shape(x.m) && Shape(y.m) && |WorldOf(y).task| == NR_TASKS && 0 <= op.off < PAGE_SIZE
    requires Seen(x.m, DirOf(op.slot, op.page), op.page % ENTRIES)
    ensures var d, i := DirOf(op.slot, op.page), op.page % ENTRIES;
      && (Clean(y.m, a, b) <==> Clean(x.m, a, b) && (a, b) != (d, i))
      && (Clean(y.m, a, b) ==>
            (Shown(bin, WorldOf(y), a, b) <==> PageAt(x.m, d, i)[op.off] == op.value || !Spoils(x, d, i, a, b)))
  {
    var d, i := DirOf(op.slot, op.page), op.page % ENTRIES;
    StoreFacts(x, op, r, g, y);
    StoredClean(x.m, x.held, d, i, op.off, op.value, a, b);
    if Clean(x.m, a, b) && (a, b) != (d, i) {
      ShownAt(bin, x, a, b);
      CleanInView(x, a, b);
      StoredAt(x.m, x.held, d, i, op.off, op.value, (a, b));
      ViewAt(x.m, (a, b));
      StripAt(x, SlotOf(a));
      hide SysOk, Outcome, Shows, ViewOf, Inv, Enabled, Stored, Shown, Clean;
      if At(x.m, a, b).frame == At(x.m, d, i).frame {
        SpoiltShown(bin, WorldOf(x), WorldOf(y), a, b, op.off, op.value);
      } else {
        UnspoiltShown(bin, WorldOf(x), WorldOf(y), a, b);
      }
    }
  }

  lemma UnspoiltShown(bin: Binaries, w: World, u: World, d: int, i: int)
    requires |w.task| == NR_TASKS && User(d, i) && u.task == w.task && (d, i) in w.view && (d, i) in u.view
    requires u.view[(d, i)] == w.view[(d, i)]
    ensures Shown(bin, u, d, i) <==> Shown(bin, w, d, i)
  {
  }

  lemma KernelStoreShows(bin: Binaries, x: Sys, op: Op, r: int, g: bool, y: Sys)
    requires Outcome(x, op, r, g, y) && Enabled(WorldOf(x), op) && op.KernelStore?
    requires Shows(bin, x) && Ends(bin, WorldOf(y))
    ensures SysOk(x) && 0 <= op.off < PAGE_SIZE
    ensures Shows(bin, y) <==> Harmless(x, DirOf(op.slot, op.page), op.page % ENTRIES, op.off, op.value)
  {
    TracedShapes(x, op, r, g, y);
    StoreFacts(x, op, r, g, y);
    hide Outcome, Enabled, SysOk, WorldOf, Shown, Stored, Spoils, Shareable, ViewOf, PageAt, Seen;
    var d, i := DirOf(op.slot, op.page), op.page % ENTRIES;
    forall a, b
      ensures Clean(y.m, a, b) <==> Clean(x.m, a, b) && (a, b) != (d, i)
      ensures Clean(y.m, a, b) ==>
                (Shown(bin, WorldOf(y), a, b) <==> PageAt(x.m, d, i)[op.off] == op.value || !Spoils(x, d, i, a, b))
    {
      StoredShown(bin, x, op, r, g, y, a, b);
    }
    forall a, b | Spoils(x, d, i, a, b)
      ensures Clean(y.m, a, b)
    {
      SpoilsClean(x, d, i, a, b);
    }
  }

  lemma SpoilsClean(x: Sys, d: int, i: int, a: int, b: int)
    requires SysOk(x) && Seen(x.m, d, i) && Spoils(x, d, i, a, b)
    ensures Clean(x.m, a, b) && (a, b) != (d, i)
  {
  }

  /** A page with its frame to itself can be stored to: a count of 1 is enough. */
  lemma StoreGuard(x: Sys, op: Op, r: int, y: Sys)
    requires Outcome(x, op, r, true, y) && Enabled(WorldOf(x), op) && op.KernelStore?
    ensures SysOk(x) && 0 <= op.off < PAGE_SIZE
    ensures Harmless(x, DirOf(op.slot, op.page), op.page % ENTRIES, op.off, op.value)
  {
    assert Apart(x, op);
  }

  // ---- whole runs ----

  /** Whatever the executables hold, the state at boot shows them. */
  lemma BootShows(bin: Binaries, x: Sys)
    requires SysOk(x) && Fresh(x)
    ensures Shows(bin, x)
  {
    assert forall d, i :: !Clean(x.m, d, i);
    forall s | 0 <= s < NR_TASKS && WorldOf(x).task[s].Task?
      ensures WorldOf(x).task[s].exec == 0
    {
      assert x.task[s] in x.task;
    }
  }

  lemma EndsKept(bin: Binaries, x: Sys, op: Op, r: int, g: bool, y: Sys)
    requires Outcome(x, op, r, g, y) && Ends(bin, WorldOf(x)) && Honest(bin, WorldOf(x), op)
    ensures Ends(bin, WorldOf(y))
  {
    TracedShapes(x, op, r, g, y);
    hide SysOk, ViewOf, Traced, Scarce, Alone;
    if Enabled(WorldOf(x), op) {
      if op.KernelStore? {
        StoreFacts(x, op, r, g, y);
      } else {
        EagerEnds(bin, WorldOf(x), op, r);
      }
    }
  }

  lemma EagerEnds(bin: Binaries, w: World, op: Op, r: int)
    requires Enabled(w, op) && Ends(bin, w) && Honest(bin, w, op)
    ensures Ends(bin, EagerStep(w, op, r))
  {
  }

  /** Every step keeps the clean pages true to their executables, except a
      verify_area that copies a page that is not and a kernel store that spoils one. */
  lemma StepShows(bin: Binaries, x: Sys, op: Op, r: int, g: bool, y: Sys)
    requires Outcome(x, op, r, g, y) && Honest(bin, WorldOf(x), op) && Shows(bin, x)
    ensures SysOk(x) && SysOk(y) && |WorldOf(x).task| == NR_TASKS
    ensures Shows(bin, y) <==> ImageKept(bin, x, op, y)
  {
    TracedShapes(x, op, r, g, y);
    EndsKept(bin, x, op, r, g, y);
    if !Enabled(WorldOf(x), op) {
      assert y == x;
    } else if op.Verify? {
      VerifyShows(bin, x, op, r, g, y);
    } else if op.KernelStore? {
      KernelStoreShows(bin, x, op, r, g, y);
    } else {
      hide Outcome, SysOk, WorldOf, Shown, Clean, Enabled, NewEntry;
      forall d, i | Clean(y.m, d, i)
        ensures Shown(bin, WorldOf(y), d, i)
      {
        EntryShows(bin, x, op, r, g, y, d, i);
      }
    }
  }

  lemma EntryShows(bin: Binaries, x: Sys, op: Op, r: int, g: bool, y: Sys, d: int, i: int)
    requires Outcome(x, op, r, g, y) && Enabled(WorldOf(x), op) && !op.KernelStore? && !op.Verify?
    requires Honest(bin, WorldOf(x), op) && Shows(bin, x) && Shape(y.m) && Clean(y.m, d, i)
    requires |WorldOf(y).task| == NR_TASKS
    ensures Shown(bin, WorldOf(y), d, i)
  {
    hide Outcome, SysOk, WorldOf, Shown, Shareable, Enabled, Honest, Shows;
    TracedShapes(x, op, r, g, y);
    if NewEntry(op, r, d, i) {
      if op.Fork? {
        ForkOutcome(x, op, r, g, y);
        ForkShown(bin, x, op, g, y, d, i);
      } else {
        FaultShown(bin, x, op, r, g, y);
      }
    } else {
      StepSame(x, op, r, g, y, d, i);
      ShownAt(bin, x, d, i);
      CarryEntry(bin, x, y, d, i);
    }
  }

  lemma ForkOutcome(x: Sys, op: Op, r: int, g: bool, y: Sys)
    requires Outcome(x, op, r, g, y) && Enabled(WorldOf(x), op) && op.Fork? && r >= 0
    ensures r == 0
  {
  }

  /** Over a run of honest operations every clean page shows its executable's bytes
      at every point exactly if each step met its condition. */
  lemma {:induction false} ImagesShown(bin: Binaries, ss: seq<Sys>, ops: seq<Op>, rs: seq<int>, gs: seq<bool>, n: nat)
    requires |ops| == |rs| == |gs| && |ss| == |ops| + 1 && n <= |ops| && Shows(bin, ss[0])
    requires forall k :: 0 <= k < |ops| ==> Happened(ss, ops, rs, gs, k)
    requires forall k :: 0 <= k < |ops| ==> Shape(ss[k].m) && Honest(bin, WorldOf(ss[k]), ops[k])
    ensures (forall k :: 0 <= k <= n ==> Shows(bin, ss[k])) <==> (forall k :: 0 <= k < n ==> KeptAt(bin, ss, ops, k))
  {
    hide Outcome, Honest, Shows, WorldOf, ImageKept, Shape, SysOk;
    if n > 0 {
      ImagesShown(bin, ss, ops, rs, gs, n - 1);
      assert Happened(ss, ops, rs, gs, n - 1);
      if forall k :: 0 <= k <= n - 1 ==> Shows(bin, ss[k]) {
        assert Shows(bin, ss[n - 1]);
        StepShows(bin, ss[n - 1], ops[n - 1], rs[n - 1], gs[n - 1], ss[n]);
        assert Shows(bin, ss[n]) <==> KeptAt(bin, ss, ops, n - 1);
      } else {
        assert !forall k :: 0 <= k <= n ==> Shows(bin, ss[k]);
      }
    }
  }

  /** As long as each step meets its condition, every fault brings in what do_no_page
      would read, shared or not. */
  lemma FaultsTrue(bin: Binaries, ss: seq<Sys>, ops: seq<Op>, rs: seq<int>, gs: seq<bool>)
    requires |ops| == |rs| == |gs| && |ss| == |ops| + 1 && Shows(bin, ss[0])
    requires forall k :: 0 <= k < |ops| ==> Happened(ss, ops, rs, gs, k)
    requires forall k :: 0 <= k < |ops| ==> Shape(ss[k].m) && Honest(bin, WorldOf(ss[k]), ops[k])
    requires forall k :: 0 <= k < |ops| ==> KeptAt(bin, ss, ops, k)
    ensures forall k :: 0 <= k < |ops| ==> FaultTrue(bin, ss, ops, rs, k)
  {
    hide Outcome, Honest, Shows, WorldOf, ImageKept, Shape, SysOk, KeptAt, Enabled, Demand;
    ImagesShown(bin, ss, ops, rs, gs, |ops|);
    forall k | 0 <= k < |ops|
      ensures FaultTrue(bin, ss, ops, rs, k)
    {
      assert Happened(ss, ops, rs, gs, k);
      TracedShapes(ss[k], ops[k], rs[k], gs[k], ss[k + 1]);
      if Enabled(WorldOf(ss[k]), ops[k]) && ops[k].Fault? && rs[k] >= 0 {
        FaultSame(bin, ss[k], ops[k], rs[k], gs[k], ss[k + 1]);
      }
    }
  }

  ghost predicate FaultTrue(bin: Binaries, ss: seq<Sys>, ops: seq<Op>, rs: seq<int>, k: int)
    requires |ops| == |rs| && |ss| == |ops| + 1 && 0 <= k < |ops|
  {
    Shape(ss[k].m) && Shape(ss[k + 1].m) && (Enabled(WorldOf(ss[k]), ops[k]) && ops[k].Fault? && rs[k] >= 0 ==>
      var op, t := ops[k], WorldOf(ss[k]).task[ops[k].slot];
      && t.Task? && Key(op.slot, op.page) in WorldOf(ss[k + 1]).view
      && WorldOf(ss[k + 1]).view[Key(op.slot, op.page)] == Demand(t, op.page, op.image) == Loaded(bin, t, op.page))
  }

  ghost predicate KeptAt(bin: Binaries, ss: seq<Sys>, ops: seq<Op>, k: int)
    requires |ss| == |ops| + 1 && 0 <= k < |ops|
  {
    SysOk(ss[k]) && SysOk(ss[k + 1]) && |WorldOf(ss[k]).task| == NR_TASKS && ImageKept(bin, ss[k], ops[k], ss[k + 1])
  }

  // ---- a run in which a fault shows the wrong bytes ----

  /** Tasks `a` and `s` run one program, `a` has the page and shows `p`, `s` has not. */
  ghost predicate Stage(w: World, a: int, s: int, page: int, p: Page) {
    && InLimit(w, a, page) && InLimit(w, s, page) && a != s && page < DIRS_PER_TASK * ENTRIES
    && SameProgram(w.task[a], w.task[s]) && Backed(w.task[a], page)
    && Key(a, page) in w.view && w.view[Key(a, page)] == p && Key(s, page) !in w.view
  }

  /** Steps on other slots leave the stage as it is. */
  lemma StageKept(x: Sys, op: Op, r: int, g: bool, y: Sys, a: int, s: int, page: int, p: Page)
    requires Outcome(x, op, r, g, y) && Enabled(WorldOf(x), op) && !op.KernelStore?
    requires Stage(WorldOf(x), a, s, page, p) && Target(op) != a && Target(op) != s
    ensures Stage(WorldOf(y), a, s, page, p)
  {
    hide SysOk, Outcome, WorldOf, EagerStep, Enabled, Stage, Traced;
    TracedShapes(x, op, r, g, y);
    EagerParts(x, op, r, g, y);
    LimitsKnown(x);
    StageWorld(WorldOf(x), op, r, a, s, page, p);
  }

  lemma StageWorld(w: World, op: Op, r: int, a: int, s: int, page: int, p: Page)
    requires Enabled(w, op) && LimitsOk(w) && Stage(w, a, s, page, p) && Target(op) != a && Target(op) != s
    ensures Stage(EagerStep(w, op, r), a, s, page, p)
  {
    hide EagerStep, Enabled;
    SlotKey(a, page);
    SlotKey(s, page);
    StepIsolated(w, op, r, Key(a, page));
    StepIsolated(w, op, r, Key(s, page));
    OtherTask(w, op, r, a);
    OtherTask(w, op, r, s);
  }

  lemma StoreStage(x: Sys, op: Op, g: bool, y: Sys, s: int, p: Page)
    requires Outcome(x, op, 0, g, y) && op.Store? && 0 <= op.off < PAGE_SIZE
    requires Stage(WorldOf(x), op.slot, s, op.page, p)
    ensures Enabled(WorldOf(x), op) && Stage(WorldOf(y), op.slot, s, op.page, p[op.off := op.value])
    ensures Shape(y.m) && !Clean(y.m, DirOf(op.slot, op.page), op.page % ENTRIES) && WorldOf(y).task == WorldOf(x).task
  {
    StoreEnabled(WorldOf(x), op, s, p);
    hide SysOk, WorldOf, Clean, Stage, Enabled;
    TracedShapes(x, op, 0, g, y);
    EagerParts(x, op, 0, g, y);
  }

  lemma StoreEnabled(w: World, op: Op, s: int, p: Page)
    requires op.Store? && 0 <= op.off < PAGE_SIZE && Stage(w, op.slot, s, op.page, p)
    ensures Enabled(w, op) && Stage(EagerStep(w, op, 0), op.slot, s, op.page, p[op.off := op.value])
    ensures EagerStep(w, op, 0).task == w.task
  {
    SlotKey(op.slot, op.page);
    SlotKey(s, op.page);
  }

  /** After the fork the child's page is the parent's frame, still dirty and not the
      child's alone. */
  lemma ForkStage(x: Sys, op: Op, g: bool, y: Sys, s: int, page: int, p: Page)
    requires Outcome(x, op, 0, g, y) && op.Fork? && Enabled(WorldOf(x), op) && op.child != s && op.child != op.parent
    requires Stage(WorldOf(x), op.parent, s, page, p)
    requires Shape(x.m) && !Clean(x.m, DirOf(op.parent, page), page % ENTRIES)
    ensures Stage(WorldOf(y), op.parent, s, page, p) && |WorldOf(y).task| == NR_TASKS
    ensures WorldOf(y).task == WorldOf(x).task[op.child := WorldOf(x).task[op.parent]]
    ensures Key(op.child, page) in WorldOf(y).view && WorldOf(y).view[Key(op.child, page)] == p
    ensures Shape(y.m) && !Clean(y.m, DirOf(op.parent, page), page % ENTRIES)
    ensures DirsShared(y.m, y.m, op.parent * DIRS_PER_TASK, op.child * DIRS_PER_TASK,
                       Extent(WorldOf(x).task[op.parent]))
  {
    hide SysOk, Outcome, WorldOf, Shareable, DirsShared, CleanCopied, EagerStep, Enabled, Stage;
    TracedShapes(x, op, 0, g, y);
    ForkFacts(x, op, g, y);
    StageKept(x, op, 0, g, y, op.parent, s, page, p);
    ForkWorld(WorldOf(x), op, s, page, p);
    SlotKey(op.parent, page);
    if Clean(y.m, DirOf(op.parent, page), page % ENTRIES) {
      CopiedAt(x.m, y.m, op.parent * DIRS_PER_TASK, op.child * DIRS_PER_TASK, Extent(WorldOf(x).task[op.parent]), 0,
               DirOf(op.parent, page), page % ENTRIES);
    }
  }

  lemma ForkWorld(w: World, op: Op, s: int, page: int, p: Page)
    requires op.Fork? && Enabled(w, op) && op.child != op.parent && Stage(w, op.parent, s, page, p)
    requires 0 <= Extent(w.task[op.parent]) <= DIRS_PER_TASK
    ensures |w.task| == NR_TASKS && EagerStep(w, op, 0).task == w.task[op.child := w.task[op.parent]]
    ensures Key(op.child, page) in EagerStep(w, op, 0).view && EagerStep(w, op, 0).view[Key(op.child, page)] == p
    ensures 1 <= op.parent < NR_TASKS && 1 <= op.child < NR_TASKS
    ensures 0 <= page < Extent(w.task[op.parent]) * ENTRIES && page < DIRS_PER_TASK * ENTRIES
    ensures op.parent * DIRS_PER_TASK <= DirOf(op.parent, page) < op.parent * DIRS_PER_TASK + Extent(w.task[op.parent])
    ensures !InCopy(DirOf(op.parent, page), page % ENTRIES, op.child * DIRS_PER_TASK, Extent(w.task[op.parent]), 0)
  {
    SlotKey(op.parent, page);
    SlotKey(op.child, page);
    EagerAt(w.view, op.parent * DIRS_PER_TASK, op.child * DIRS_PER_TASK, Extent(w.task[op.parent]), 0,
            Key(op.child, page));
  }

  /** Two user entries with one frame: neither has it alone. */
  lemma NotAlone(x: Sys, d: int, e: int, i: int)
    requires SysOk(x) && User(d, i) && User(e, i) && d != e && At(x.m, d, i).Present? && Visible(e, i)
    requires SameFrame(At(x.m, e, i), At(x.m, d, i))
    ensures !Guarded(x.m, e, i)
  {
    var f := At(x.m, d, i).frame;
    if Guarded(x.m, e, i) {
      SoleUse(x.m, x.held, e, i);
      RefsMember(x.m, d, i, f);
    }
  }

  /** The child's page after the fork is present and shared. */
  lemma ForkedShared(y: Sys, a: int, c: int, page: int, n: int)
    requires SysOk(y) && Shape(y.m) && 1 <= a < NR_TASKS && 1 <= c < NR_TASKS && a != c
    requires 0 <= page < n * ENTRIES && page < DIRS_PER_TASK * ENTRIES
    requires DirsShared(y.m, y.m, a * DIRS_PER_TASK, c * DIRS_PER_TASK, n) && Key(a, page) in WorldOf(y).view
    ensures Visible(DirOf(c, page), page % ENTRIES) && At(y.m, DirOf(c, page), page % ENTRIES).Present?
    ensures !Guarded(y.m, DirOf(c, page), page % ENTRIES)
  {
    SlotKey(a, page);
    SlotKey(c, page);
    var d, e, i := DirOf(a, page), DirOf(c, page), page % ENTRIES;
    assert DirShared(y.m, y.m, a * DIRS_PER_TASK, c * DIRS_PER_TASK, e);
    assert SameFrame(At(y.m, e, i), At(y.m, d, i));
    SeenIff(y.m, y.held, d, i);
    NotAlone(y, d, e, i);
  }

  /** verify_area on the child's behalf, of one byte of that page: the page moves to
      a clean copy that shows what the child saw. */
  lemma VerifyStage(x: Sys, op: Op, g: bool, y: Sys, a: int, s: int, page: int, p: Page)
    requires Outcome(x, op, 0, g, y) && op.Verify? && Enabled(WorldOf(x), op)
    requires Stage(WorldOf(x), a, s, page, p) && op.slot != a && op.slot != s
    requires op.start == op.slot * SLOT_SIZE + page * PAGE_SIZE && op.size == 1
    requires Shape(x.m) && !Clean(x.m, DirOf(a, page), page % ENTRIES)
    requires 1 <= op.slot < NR_TASKS && 0 <= page < DIRS_PER_TASK * ENTRIES
    requires Visible(DirOf(op.slot, page), page % ENTRIES) && At(x.m, DirOf(op.slot, page), page % ENTRIES).Present?
    requires !Guarded(x.m, DirOf(op.slot, page), page % ENTRIES)
    ensures Stage(WorldOf(y), a, s, page, p) && WorldOf(y) == WorldOf(x)
    ensures Shape(y.m) && Clean(y.m, DirOf(op.slot, page), page % ENTRIES)
    ensures !Clean(y.m, DirOf(a, page), page % ENTRIES)
  {
    hide SysOk, Outcome, WorldOf, Shareable, Stage, Guarded, Copied;
    TracedShapes(x, op, 0, g, y);
    EagerParts(x, op, 0, g, y);
    AreaOf(op.slot, page);
    SlotKey(op.slot, page);
    CopiedIff(x, op, g, y, DirOf(op.slot, page), page % ENTRIES);
    VerifyEntry(x, op, 0, g, y, DirOf(op.slot, page), page % ENTRIES);
    StageSlots(WorldOf(x), a, s, page, p);
    AreaOf(a, page);
    CopiedIff(x, op, g, y, DirOf(a, page), page % ENTRIES);
    VerifyEntry(x, op, 0, g, y, DirOf(a, page), page % ENTRIES);
  }

  lemma StageSlots(w: World, a: int, s: int, page: int, p: Page)
    requires Stage(w, a, s, page, p)
    ensures 1 <= a < NR_TASKS && 1 <= s < NR_TASKS && |w.task| == NR_TASKS && 0 <= page < DIRS_PER_TASK * ENTRIES
    ensures Key(a, page) in w.view && SameProgram(w.task[a], w.task[s])
  {
  }

  lemma AreaOf(c: int, page: int)
    requires 1 <= c < NR_TASKS && 0 <= page < DIRS_PER_TASK * ENTRIES
    ensures FirstPage(c * SLOT_SIZE + page * PAGE_SIZE) == DirOf(c, page) * ENTRIES + page % ENTRIES
    ensures LastPage(c * SLOT_SIZE + page * PAGE_SIZE, 1) == DirOf(c, page) * ENTRIES + page % ENTRIES + 1
    ensures OneSlot(FirstPage(c * SLOT_SIZE + page * PAGE_SIZE), LastPage(c * SLOT_SIZE + page * PAGE_SIZE, 1))
  {
  }

  /** The faulting task takes the page over from slot `c`, the only one that has it
      clean among those that run its program. */
  lemma FaultStage(x: Sys, op: Op, r: int, g: bool, y: Sys, a: int, c: int, p: Page)
    requires Outcome(x, op, r, g, y) && op.Fault? && Enabled(WorldOf(x), op) && r >= 0
    requires Stage(WorldOf(x), a, op.slot, op.page, p) && OnlyRunners(WorldOf(x), op.slot, {a, c})
    requires 1 <= c < NR_TASKS && c != op.slot && SameProgram(WorldOf(x).task[c], WorldOf(x).task[op.slot])
    requires Shape(x.m) && Clean(x.m, DirOf(c, op.page), op.page % ENTRIES)
    requires !Clean(x.m, DirOf(a, op.page), op.page % ENTRIES)
    requires Key(c, op.page) in WorldOf(x).view && WorldOf(x).view[Key(c, op.page)] == p
    ensures r == c && Key(op.slot, op.page) in WorldOf(y).view && WorldOf(y).view[Key(op.slot, op.page)] == p
  {
    hide SysOk, Outcome, WorldOf, Shareable, EagerStep, Enabled;
    TracedShapes(x, op, r, g, y);
    FaultPage(x, op, r, g, y);
    FaultChosen(x, op, r, g, y);
    StripAt(x, c);
    StripAt(x, op.slot);
    assert Candidate(x.m, x.task, op.slot, c, op.page);
    assert r > 0 && WorldOf(x).task[r].exec == WorldOf(x).task[op.slot].exec;
  }

  lemma FaultChosen(x: Sys, op: Op, r: int, g: bool, y: Sys)
    requires Outcome(x, op, r, g, y) && op.Fault? && Enabled(WorldOf(x), op) && r >= 0
    ensures Shape(x.m) && |x.task| == NR_TASKS && 0 <= op.slot < NR_TASKS && x.task[op.slot].Task?
    ensures 0 <= op.page < DIRS_PER_TASK * ENTRIES && Chosen(x.m, x.task, op.slot, op.page, r)
    ensures r != op.slot
  {
    TracedShapes(x, op, r, g, y);
    EagerParts(x, op, r, g, y);
    FaultPage(x, op, r, g, y);
    StripAt(x, op.slot);
    hide SysOk, Candidate, ViewOf;
  }

  /** Nobody but `s` and the slots of `those` runs the executable of `s`. */
  ghost predicate OnlyRunners(w: World, s: int, those: set<int>) {
    |w.task| == NR_TASKS && 0 <= s < NR_TASKS && w.task[s].Task?
      && forall k :: 1 <= k < NR_TASKS && k != s && k !in those && w.task[k].Task? ==> w.task[k].exec != w.task[s].exec
  }

  /** Task `a` writes to a page of its program and forks; the kernel verifies a byte of
      the page for the child and then does not store; task `s` of the same program,
      which has not got the page, faults on it. */
  function StaleOps(a: int, c: int, s: int, page: int, off: int, v: int, image: Page): seq<Op> {
    [Op.Store(a, page, off, v), Op.Fork(a, c), Op.Verify(c, c * SLOT_SIZE + page * PAGE_SIZE, 1),
     Op.Fault(s, page, image)]
  }

  /** The failing run: `s` is shown the byte that `a` wrote, not the executable's. */
  lemma StaleRun(bin: Binaries, ss: seq<Sys>, rs: seq<int>, gs: seq<bool>, a: int, c: int, s: int, page: int,
                 off: int, v: int, image: Page)
    requires |ss| == 5 && |rs| == |gs| == 4 && rs[0] == rs[1] == rs[2] == 0 <= rs[3] && 0 <= off < PAGE_SIZE
    requires forall k :: 0 <= k < 4 ==> Happened(ss, StaleOps(a, c, s, page, off, v, image), rs, gs, k)
    requires Shape(ss[0].m) && InLimit(WorldOf(ss[0]), a, page) && InLimit(WorldOf(ss[0]), s, page)
    requires var w := WorldOf(ss[0]);
               var p := Loaded(bin, w.task[s], page);
               Stage(w, a, s, page, p) && OnlyRunners(w, s, {a}) && p[off] != v
    requires 1 <= c < NR_TASKS && WorldOf(ss[0]).task[c].NoTask?
    ensures rs[3] == c && Shape(ss[4].m) && Key(s, page) in WorldOf(ss[4]).view
    ensures WorldOf(ss[4]).view[Key(s, page)] == Loaded(bin, WorldOf(ss[0]).task[s], page)[off := v]
      != Loaded(bin, WorldOf(ss[0]).task[s], page)
  {
    hide Outcome, WorldOf, Shareable, Stage, Demand, Guarded, SysOk, DirsShared;
    var ops := StaleOps(a, c, s, page, off, v, image);
    var p := Loaded(bin, WorldOf(ss[0]).task[s], page);
    assert Happened(ss, ops, rs, gs, 0) && Happened(ss, ops, rs, gs, 1);
    assert Happened(ss, ops, rs, gs, 2) && Happened(ss, ops, rs, gs, 3);
    StoreStage(ss[0], ops[0], gs[0], ss[1], s, p);
    var q := p[off := v];
    assert q[off] == v;
    StageForks(WorldOf(ss[1]), a, c, s, page, q);
    ForkStage(ss[1], ops[1], gs[1], ss[2], s, page, q);
    TracedShapes(ss[1], ops[1], 0, gs[1], ss[2]);
    StageSlots(WorldOf(ss[2]), a, s, page, q);
    ForkedShared(ss[2], a, c, page, Extent(WorldOf(ss[1]).task[a]));
    StageVerifies(WorldOf(ss[2]), a, c, s, page, q);
    VerifyStage(ss[2], ops[2], gs[2], ss[3], a, s, page, q);
    StageFaults(WorldOf(ss[3]), a, s, page, q, image);
    FaultStage(ss[3], ops[3], rs[3], gs[3], ss[4], a, c, q);
    TracedShapes(ss[3], ops[3], rs[3], gs[3], ss[4]);
  }

  lemma StageForks(w: World, a: int, c: int, s: int, page: int, p: Page)
    requires Stage(w, a, s, page, p) && 1 <= c < NR_TASKS && w.task[c].NoTask?
    ensures Enabled(w, Op.Fork(a, c)) && c != a && c != s && 1 <= a < NR_TASKS && w.task[a].Task?
    ensures 0 <= page < Extent(w.task[a]) * ENTRIES && page < DIRS_PER_TASK * ENTRIES && 0 <= Extent(w.task[a])
  {
  }

  lemma StageVerifies(w: World, a: int, c: int, s: int, page: int, p: Page)
    requires Stage(w, a, s, page, p) && 1 <= c < NR_TASKS && w.task[c] == w.task[a]
    ensures Enabled(w, Op.Verify(c, c * SLOT_SIZE + page * PAGE_SIZE, 1))
  {
  }

  lemma StageFaults(w: World, a: int, s: int, page: int, p: Page, image: Page)
    requires Stage(w, a, s, page, p)
    ensures Enabled(w, Op.Fault(s, page, image))
  {
  }
}
