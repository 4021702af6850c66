/** Values behind mm/memory.c: reference counts, page directory, page tables and
    page contents, the invariant that ties them together, and the elementary
    changes the kernel makes to them.

    The linear address space is cut into NR_TASKS slots of 64 MB, that is
    DIRS_PER_TASK directory entries each.  Slot 0 belongs to the kernel; the
    reference counts speak about the user slots, directory index 16 and up. */
module PageModel {

  const NR_TASKS: int := 64
  const DIRS_PER_TASK: int := 16
  const NR_DIRS: int := 1024
  const ENTRIES: int := 1024
  /** Frames below LOW_MEM (1 MB) are never counted. */
  const LOW: int := 256
  const PAGING_PAGES: int := 3840
  const FRAMES: int := 4096
  /** The first fork copies only 640 kB of the kernel's table. */
  const KERNEL_ENTRIES: int := 160
  const USED: nat := 100
  const PAGE_SIZE: int := 4096

  datatype Entry = Absent | Present(frame: nat, writable: bool, dirty: bool)
  datatype DirEntry = NoTable | Table(frame: nat)

  type Page = p: seq<int> | |p| == PAGE_SIZE witness seq(PAGE_SIZE, _ => 0)
  type EntryTable = t: seq<Entry> | |t| == ENTRIES witness seq(ENTRIES, _ => Absent)

  function ZeroPage(): Page { seq(PAGE_SIZE, _ => 0) }

  function EmptyTable(): EntryTable { seq(ENTRIES, _ => Absent) }

  datatype Mem = Mem(count: seq<nat>, dir: seq<DirEntry>, table: seq<EntryTable>, data: seq<Page>)

  ghost predicate Shape(m: Mem) {
    && |m.count| == PAGING_PAGES
    && |m.dir| == NR_DIRS
    && |m.table| == FRAMES
    && |m.data| == FRAMES
    && (forall d :: 0 <= d < NR_DIRS && m.dir[d].Table? ==> m.dir[d].frame < FRAMES)
  }

  predicate User(d: int, i: int) {
    DIRS_PER_TASK <= d < NR_DIRS && 0 <= i < ENTRIES
  }

  /** The translations whose contents we follow: all user entries, and the
      640 kB of slot 0 that the first fork hands to task 1. */
  predicate Visible(d: int, i: int) {
    User(d, i) || (d == 0 && 0 <= i < KERNEL_ENTRIES)
  }

  /** The two-level walk of section 5.2 of the 80386 manual. */
  function At(m: Mem, d: int, i: int): Entry
    requires Shape(m) && 0 <= d < NR_DIRS && 0 <= i < ENTRIES
  {
    if m.dir[d].Table? then m.table[m.dir[d].frame][i] else Absent
  }

  predicate Maps(m: Mem, d: int, i: int, f: int)
    requires Shape(m)
  {
    User(d, i) && At(m, d, i).Present? && At(m, d, i).frame == f
  }

  function Count(m: Mem, f: int): nat
    requires Shape(m) && LOW <= f < FRAMES
  {
    m.count[f - LOW]
  }

  /** What the kernel itself holds of frame `f`. */
  function Kept(held: seq<nat>, f: int): nat
    requires |held| == PAGING_PAGES && LOW <= f < FRAMES
  {
    held[f - LOW]
  }

  ghost function Refs(m: Mem, f: int): set<(int, int)>
    requires Shape(m)
  {
    set d: int, i: int | DIRS_PER_TASK <= d < NR_DIRS && 0 <= i < ENTRIES && Maps(m, d, i, f) :: (d, i)
  }

  ghost function TableRefs(m: Mem, f: int): set<int>
    requires Shape(m)
  {
    set d: int | DIRS_PER_TASK <= d < NR_DIRS && m.dir[d].Table? && m.dir[d].frame == f
  }

  // ---- the invariant ----

  ghost predicate TablesApart(m: Mem)
    requires Shape(m)
  {
    && (forall d :: DIRS_PER_TASK <= d < NR_DIRS && m.dir[d].Table? ==> LOW <= m.dir[d].frame)
    && (forall d, e :: DIRS_PER_TASK <= d < e < NR_DIRS && m.dir[d].Table? && m.dir[e].Table?
          ==> m.dir[d].frame != m.dir[e].frame)
    && m.dir[0].Table? && m.dir[0].frame < LOW
  }

  ghost predicate FramesInRange(m: Mem)
    requires Shape(m)
  {
    && (forall d, i :: User(d, i) && At(m, d, i).Present? ==> At(m, d, i).frame < FRAMES)
    && (forall i :: 0 <= i < KERNEL_ENTRIES && At(m, 0, i).Present? ==> At(m, 0, i).frame < LOW)
  }

  /** mem_map is exactly the number of user entries and directory slots using
      the frame plus what the kernel holds itself. */
  ghost predicate Exact(m: Mem, held: seq<nat>)
    requires Shape(m) && |held| == PAGING_PAGES
  {
    forall f :: LOW <= f < FRAMES ==> Count(m, f) == |Refs(m, f)| + |TableRefs(m, f)| + Kept(held, f)
  }

  ghost predicate Exclusive(m: Mem, held: seq<nat>)
    requires Shape(m) && |held| == PAGING_PAGES
  {
    && (forall d :: DIRS_PER_TASK <= d < NR_DIRS && m.dir[d].Table? && LOW <= m.dir[d].frame
          ==> Count(m, m.dir[d].frame) == 1)
    && (forall f :: LOW <= f < FRAMES && Kept(held, f) > 0 ==> Count(m, f) == Kept(held, f) <= USED)
  }

  /** (d, i) and (e, j) are user entries for one and the same counted frame. */
  ghost predicate Coincide(m: Mem, d: int, i: int, e: int, j: int)
    requires Shape(m)
  {
    && User(d, i) && User(e, j) && At(m, d, i).Present? && At(m, e, j).Present?
    && At(m, d, i).frame == At(m, e, j).frame && LOW <= At(m, d, i).frame
  }

  /** All mappings of a frame sit at the same offset of their task slots. */
  ghost predicate SameOffset(m: Mem)
    requires Shape(m)
  {
    forall d, i, e, j :: Coincide(m, d, i, e, j) ==> d % DIRS_PER_TASK == e % DIRS_PER_TASK && i == j
  }

  /** A writable user entry is the only use of its frame. */
  ghost predicate Protected(m: Mem)
    requires Shape(m) && FramesInRange(m)
  {
    forall d, i :: User(d, i) && At(m, d, i).Present? && At(m, d, i).writable
      ==> LOW <= At(m, d, i).frame && Count(m, At(m, d, i).frame) == 1
  }

  ghost predicate Inv(m: Mem, held: seq<nat>) {
    && Shape(m) && |held| == PAGING_PAGES
    && TablesApart(m)
    && FramesInRange(m)
    && Exact(m, held)
    && Exclusive(m, held)
    && SameOffset(m)
    && Protected(m)
  }

  // ---- what user programs see ----

  type View = map<(int, int), Page>

  ghost predicate Seen(m: Mem, d: int, i: int)
    requires Shape(m)
  {
    Visible(d, i) && At(m, d, i).Present? && At(m, d, i).frame < FRAMES
  }

  ghost function PageAt(m: Mem, d: int, i: int): Page
    requires Shape(m) && Seen(m, d, i)
  {
    m.data[At(m, d, i).frame]
  }

  ghost function ViewOf(m: Mem): View
    requires Shape(m)
  {
    map d: int, i: int | 0 <= d < NR_DIRS && 0 <= i < ENTRIES && Seen(m, d, i) :: (d, i) := PageAt(m, d, i)
  }

  // ---- elementary changes ----

  function SetEntry(m: Mem, d: int, i: int, e: Entry): (r: Mem)
    requires Shape(m) && 0 <= d < NR_DIRS && 0 <= i < ENTRIES && m.dir[d].Table?
    ensures Shape(r)
  {
    var t := m.dir[d].frame;
    m.(table := m.table[t := m.table[t][i := e]])
  }

  function SetCount(m: Mem, f: int, c: nat): (r: Mem)
    requires Shape(m) && LOW <= f < FRAMES
    ensures Shape(r)
  {
    m.(count := m.count[f - LOW := c])
  }

  lemma AtAfterSetEntry(m: Mem, d: int, i: int, e: Entry)
    requires Shape(m) && TablesApart(m) && User(d, i) && m.dir[d].Table?
    ensures forall a, b :: Visible(a, b) ==>
      At(SetEntry(m, d, i, e), a, b) == if a == d && b == i then e else At(m, a, b)
  {
  }

  lemma MapsAfterSetEntry(m: Mem, d: int, i: int, e: Entry, f: int, a: int, b: int)
    requires Shape(m) && TablesApart(m) && User(d, i) && m.dir[d].Table?
    ensures Maps(SetEntry(m, d, i, e), a, b, f)
      <==> if a == d && b == i then e.Present? && e.frame == f else Maps(m, a, b, f)
  {
    if User(a, b) {
      assert Visible(a, b);
      AtAfterSetEntry(m, d, i, e);
    }
  }

  lemma RefsMember(m: Mem, d: int, i: int, f: int)
    requires Shape(m)
    ensures (d, i) in Refs(m, f) <==> Maps(m, d, i, f)
  {
  }

  /** Only the changed entry enters or leaves a frame's set of uses. */
  lemma RefsAfterSetEntry(m: Mem, d: int, i: int, e: Entry, f: int)
    requires Shape(m) && TablesApart(m) && User(d, i) && m.dir[d].Table?
    ensures var r := SetEntry(m, d, i, e);
      && TableRefs(r, f) == TableRefs(m, f)
      && |Refs(r, f)|
           == |Refs(m, f)| - (if Maps(m, d, i, f) then 1 else 0) + (if e.Present? && e.frame == f then 1 else 0)
  {
    var r := SetEntry(m, d, i, e);
    var s := Refs(m, f) - {(d, i)};
    var hit := e.Present? && e.frame == f;
    RefsMember(m, d, i, f);
    assert Refs(m, f) == if Maps(m, d, i, f) then s + {(d, i)} else s;
    forall p: (int, int)
      ensures p in Refs(r, f) <==> p in (if hit then s + {(d, i)} else s)
    {
      RefsMember(r, p.0, p.1, f);
      RefsMember(m, p.0, p.1, f);
      MapsAfterSetEntry(m, d, i, e, f, p.0, p.1);
    }
    assert Refs(r, f) == if hit then s + {(d, i)} else s;
  }
}
