/** Values behind fs/inode.c, fs/bitmap.c, fs/truncate.c and fs/file_dev.c: the
    zone bitmap, the blocks of the device, the inodes' zone arrays, and the
    invariant that every allocated zone has exactly one owner.

    Block contents are taken through a transparent buffer cache (BufferCache). */
module BlockModel {

  const BLOCK_SIZE: int := 1024
  const ENTRIES: int := 512
  const DIRECT: int := 7
  const MAX_BLOCKS: int := 7 + 512 + 512 * 512
  const MAX_BYTES: int := 268966912
  const BITS_PER_MAP: int := 8192

  type Byte = b: int | 0 <= b < 256
  type Block = s: seq<Byte> | |s| == BLOCK_SIZE witness seq(BLOCK_SIZE, _ => 0)
  type Zones = s: seq<int> | |s| == 9 && forall k :: 0 <= k < 9 ==> 0 <= s[k] < 65536
    witness [0, 0, 0, 0, 0, 0, 0, 0, 0]

  /** `regular`: a regular file or a directory, the kinds truncate works on. */
  datatype Inode = Inode(zone: Zones, size: int, regular: bool)

  /** `first` is s_firstdatazone, `nzones` is s_nzones; bit b of the zone map stands
      for zone b + first - 1. */
  datatype Fs = Fs(first: int, nzones: int, zmap: seq<bool>, disk: seq<Block>, inode: seq<Inode>)

  function ZeroBlock(): Block { seq(BLOCK_SIZE, _ => 0) }

  /** Entry i of an index block: an unsigned short, low byte first. */
  function Word(b: Block, i: int): (w: int)
    requires 0 <= i < ENTRIES
    ensures 0 <= w < 65536
  {
    var lo: int, hi: int := b[2 * i], b[2 * i + 1];
    lo + 256 * hi
  }

  function SetWord(b: Block, i: int, w: int): Block
    requires 0 <= i < ENTRIES && 0 <= w < 65536
  {
    b[2 * i := w % 256][2 * i + 1 := w / 256]
  }

  lemma WordAfterSet(b: Block, i: int, w: int, j: int)
    requires 0 <= i < ENTRIES && 0 <= w < 65536 && 0 <= j < ENTRIES
    ensures Word(SetWord(b, i, w), j) == if j == i then w else Word(b, j)
  {
  }

  ghost predicate Shape(m: Fs) {
    && 1 <= m.first < m.nzones <= 65536
    && m.nzones - m.first + 1 <= |m.zmap|
    && |m.disk| == m.nzones
  }

  /** A place a zone number can be stored: one of the nine slots of an inode, an
      entry of the index block in slot 7 or 8, or an entry of a second-level one. */
  datatype Loc = Top(ino: int, k: int) | Mid(ino: int, k: int, a: int) | Low(ino: int, a: int, b: int)

  predicate Valid(m: Fs, l: Loc) {
    0 <= l.ino < |m.inode| &&
    match l
    case Top(_, k) => 0 <= k < 9
    case Mid(_, k, a) => 7 <= k < 9 && 0 <= a < ENTRIES
    case Low(_, a, b) => 0 <= a < ENTRIES && 0 <= b < ENTRIES
  }

  /** Zone z can be dereferenced. */
  predicate InRange(m: Fs, z: int) {
    m.first <= z < m.nzones
  }

  function Entry(m: Fs, z: int, i: int): int
    requires Shape(m) && 0 <= i < ENTRIES
  {
    if InRange(m, z) then Word(m.disk[z], i) else 0
  }

  function ZoneAt(m: Fs, l: Loc): int
    requires Shape(m) && Valid(m, l)
  {
    match l
    case Top(ino, k) => m.inode[ino].zone[k]
    case Mid(ino, k, a) => Entry(m, m.inode[ino].zone[k], a)
    case Low(ino, a, b) => Entry(m, Entry(m, m.inode[ino].zone[8], a), b)
  }

  /** Locations of file data; the others hold index blocks. */
  predicate IsData(l: Loc) {
    (l.Top? && l.k < 7) || (l.Mid? && l.k == 7) || l.Low?
  }

  function BitOf(m: Fs, z: int): int { z - m.first + 1 }

  predicate Allocated(m: Fs, z: int)
    requires Shape(m) && InRange(m, z)
  {
    m.zmap[BitOf(m, z)]
  }

  ghost predicate Owns(m: Fs, l: Loc, z: int)
    requires Shape(m)
  {
    Valid(m, l) && ZoneAt(m, l) == z
  }

  ghost predicate Coincide(m: Fs, l: Loc, r: Loc)
    requires Shape(m)
  {
    Valid(m, l) && Valid(m, r) && ZoneAt(m, l) == ZoneAt(m, r) != 0
  }

  ghost predicate OwnedInRange(m: Fs)
    requires Shape(m)
  {
    forall l :: Valid(m, l) && ZoneAt(m, l) != 0 ==> InRange(m, ZoneAt(m, l)) && Allocated(m, ZoneAt(m, l))
  }

  ghost predicate OneOwner(m: Fs)
    requires Shape(m)
  {
    forall l, r :: Coincide(m, l, r) ==> l == r
  }

  /** A zone whose bit is set and which nobody names. */
  ghost predicate Orphan(m: Fs, z: int)
    requires Shape(m)
  {
    InRange(m, z) && Allocated(m, z) && forall l :: !Owns(m, l, z)
  }

  ghost predicate NoOrphans(m: Fs)
    requires Shape(m)
  {
    forall z :: !Orphan(m, z)
  }

  ghost predicate SameOrphans(m: Fs, r: Fs)
    requires Shape(m) && Shape(r)
  {
    forall z :: Orphan(r, z) <==> Orphan(m, z)
  }

  // ---- files as byte arrays ----

  function BlockLoc(ino: int, n: int): Loc {
    if n < DIRECT then Top(ino, n)
    else if n < DIRECT + ENTRIES then Mid(ino, 7, n - DIRECT)
    else Low(ino, (n - DIRECT - ENTRIES) / ENTRIES, (n - DIRECT - ENTRIES) % ENTRIES)
  }

  lemma BlockLocValid(m: Fs, ino: int, n: int)
    requires 0 <= ino < |m.inode| && 0 <= n < MAX_BLOCKS
    ensures Valid(m, BlockLoc(ino, n)) && IsData(BlockLoc(ino, n))
  {
  }

  lemma BlockLocInjective(ino: int, n: int, jno: int, k: int)
    requires 0 <= n < MAX_BLOCKS && 0 <= k < MAX_BLOCKS && BlockLoc(ino, n) == BlockLoc(jno, k)
    ensures ino == jno && n == k
  {
  }

  /** The byte a read at offset p delivers: a hole reads as zero. */
  ghost function ByteAt(m: Fs, ino: int, p: int): Byte
    requires Shape(m) && 0 <= ino < |m.inode| && 0 <= p < MAX_BYTES
  {
    BlockLocValid(m, ino, p / BLOCK_SIZE);
    var z := ZoneAt(m, BlockLoc(ino, p / BLOCK_SIZE));
    if InRange(m, z) then m.disk[z][p % BLOCK_SIZE] else 0
  }

  /** Bytes past the end are zero, also in allocated blocks. */
  ghost predicate TailsZero(m: Fs)
    requires Shape(m)
  {
    forall ino, p :: 0 <= ino < |m.inode| && m.inode[ino].size <= p < MAX_BYTES && 0 <= p ==> ByteAt(m, ino, p) == 0
  }

  ghost predicate SizesOk(m: Fs) {
    forall ino :: 0 <= ino < |m.inode| ==> 0 <= m.inode[ino].size <= MAX_BYTES
  }

  /** Orphans do no harm but to the space on the disk, so NoOrphans stands apart. */
  ghost predicate Inv(m: Fs) {
    Shape(m) && OwnedInRange(m) && OneOwner(m) && SizesOk(m) && TailsZero(m)
  }

  ghost function Content(m: Fs, ino: int): seq<Byte>
    requires Shape(m) && SizesOk(m) && 0 <= ino < |m.inode|
  {
    seq(m.inode[ino].size, p requires 0 <= p < m.inode[ino].size => ByteAt(m, ino, p))
  }

  // ---- elementary changes ----

  /** Take the free zone z, clear it, and store its number at l. */
  function Attach(m: Fs, l: Loc, z: int): Fs
    requires Shape(m) && Valid(m, l) && InRange(m, z)
    requires !l.Top? ==> InRange(m, ParentZone(m, l))
  {
    var zm := m.zmap[BitOf(m, z) := true];
    var d := m.disk[z := ZeroBlock()];
    match l
    case Top(ino, k) => Fs(m.first, m.nzones, zm, d, m.inode[ino := m.inode[ino].(zone := m.inode[ino].zone[k := z])])
    case Mid(ino, k, a) => var p := m.inode[ino].zone[k];
      Fs(m.first, m.nzones, zm, d[p := SetWord(d[p], a, z)], m.inode)
    case Low(ino, a, b) => var p := Entry(m, m.inode[ino].zone[8], a);
      Fs(m.first, m.nzones, zm, d[p := SetWord(d[p], b, z)], m.inode)
  }

  /** The zone of the index block a location lives in. */
  function ParentZone(m: Fs, l: Loc): int
    requires Shape(m) && Valid(m, l)
  {
    match l
    case Top(_, _) => 0
    case Mid(ino, k, _) => m.inode[ino].zone[k]
    case Low(ino, a, _) => Entry(m, m.inode[ino].zone[8], a)
  }

  function ParentLoc(l: Loc): Loc
    requires !l.Top?
  {
    match l
    case Mid(ino, k, _) => Top(ino, k)
    case Low(ino, a, _) => Mid(ino, 8, a)
  }

  ghost predicate CanAttach(m: Fs, l: Loc, z: int) {
    && Shape(m) && Valid(m, l) && ZoneAt(m, l) == 0
    && InRange(m, z) && !Allocated(m, z)
    && (!l.Top? ==> ParentZone(m, l) != 0)
  }

  lemma ParentIsOwned(m: Fs, l: Loc)
    requires Shape(m) && OwnedInRange(m) && Valid(m, l) && !l.Top?
    ensures Valid(m, ParentLoc(l)) && ParentZone(m, l) == ZoneAt(m, ParentLoc(l))
    ensures ParentZone(m, l) != 0 ==> InRange(m, ParentZone(m, l)) && Allocated(m, ParentZone(m, l))
    ensures ZoneAt(m, l) == Entry(m, ParentZone(m, l), if l.Mid? then l.a else l.b)
    ensures ZoneAt(m, l) != 0 ==> ParentZone(m, l) != 0
  {
    assert Valid(m, ParentLoc(l));
  }

  lemma FreeIsNotOwned(m: Fs, l: Loc, z: int)
    requires Shape(m) && OwnedInRange(m) && Valid(m, l) && InRange(m, z) && !Allocated(m, z)
    ensures ZoneAt(m, l) != z
  {
  }

  lemma AttachShape(m: Fs, l: Loc, z: int)
    requires CanAttach(m, l, z) && OwnedInRange(m)
    ensures !l.Top? ==> InRange(m, ParentZone(m, l)) && ParentZone(m, l) != z
    ensures Shape(Attach(m, l, z)) && |Attach(m, l, z).inode| == |m.inode|
    ensures forall r :: Valid(m, r) <==> Valid(Attach(m, l, z), r)
  {
    if !l.Top? {
      ParentIsOwned(m, l);
      FreeIsNotOwned(m, ParentLoc(l), z);
    }
  }

  /** An index entry after an attachment, given its index block's zone after it. */
  lemma AttachEntry(m: Fs, l: Loc, z: int, r: Loc)
    requires CanAttach(m, l, z) && OwnedInRange(m) && OneOwner(m) && Valid(m, r) && !r.Top?
    requires Valid(m, ParentLoc(r)) && (!l.Top? ==> InRange(m, ParentZone(m, l)))
    requires Shape(Attach(m, l, z)) && Valid(Attach(m, l, z), r) && Valid(Attach(m, l, z), ParentLoc(r))
    requires ParentZone(Attach(m, l, z), r) == if ParentLoc(r) == l then z else ZoneAt(m, ParentLoc(r))
    ensures ZoneAt(Attach(m, l, z), r) == if r == l then z else ZoneAt(m, r)
  {
    var m' := Attach(m, l, z);
    var q := ParentZone(m', r);
    var i := if r.Mid? then r.a else r.b;
    assert ZoneAt(m', r) == Entry(m', q, i);
    ParentIsOwned(m, r);
    FreeIsNotOwned(m, ParentLoc(r), z);
    if ParentLoc(r) == l {
      assert m'.disk[z] == ZeroBlock() by { if !l.Top? { ParentIsOwned(m, l); FreeIsNotOwned(m, ParentLoc(l), z); } }
    } else if !l.Top? {
      ParentIsOwned(m, l);
      var p := ParentZone(m, l);
      if q == p {
        assert Coincide(m, ParentLoc(r), ParentLoc(l));
        FreeIsNotOwned(m, ParentLoc(l), z);
        WordAfterSet(m.disk[p], if l.Mid? then l.a else l.b, z, i);
      }
    }
  }

  /** Attaching changes the zone of one location and no other. */
  lemma AttachAt(m: Fs, l: Loc, z: int, r: Loc)
    requires CanAttach(m, l, z) && OwnedInRange(m) && OneOwner(m) && Valid(m, r)
    ensures !l.Top? ==> InRange(m, ParentZone(m, l))
    ensures Shape(Attach(m, l, z)) && Valid(Attach(m, l, z), r)
    ensures ZoneAt(Attach(m, l, z), r) == if r == l then z else ZoneAt(m, r)
    decreases r.Low?, r.Mid?
  {
    AttachShape(m, l, z);
    var m' := Attach(m, l, z);
    if !r.Top? {
      assert Valid(m, ParentLoc(r));
      AttachAt(m, l, z, ParentLoc(r));
      assert ParentZone(m', r) == ZoneAt(m', ParentLoc(r));
      AttachEntry(m, l, z, r);
    }
  }

  /** ... and no byte of any file: the new block, if it holds data, reads as the
      hole it replaces. */
  lemma AttachByte(m: Fs, l: Loc, z: int, ino: int, p: int)
    requires CanAttach(m, l, z) && OwnedInRange(m) && OneOwner(m) && 0 <= ino < |m.inode| && 0 <= p < MAX_BYTES
    ensures !l.Top? ==> InRange(m, ParentZone(m, l))
    ensures Shape(Attach(m, l, z)) && |Attach(m, l, z).inode| == |m.inode|
    ensures ByteAt(Attach(m, l, z), ino, p) == ByteAt(m, ino, p)
  {
    var r := BlockLoc(ino, p / BLOCK_SIZE);
    BlockLocValid(m, ino, p / BLOCK_SIZE);
    AttachAt(m, l, z, r);
    AttachShape(m, l, z);
    FreeIsNotOwned(m, r, z);
    if !l.Top? {
      ParentIsOwned(m, l);
      assert !Coincide(m, r, ParentLoc(l));
    }
  }

  lemma AttachOwners(m: Fs, l: Loc, z: int)
    requires CanAttach(m, l, z) && OwnedInRange(m) && OneOwner(m)
    ensures !l.Top? ==> InRange(m, ParentZone(m, l))
    ensures var m' := Attach(m, l, z); Shape(m') && OwnedInRange(m') && OneOwner(m') && SameOrphans(m, m')
  {
    AttachShape(m, l, z);
    AttachInRange(m, l, z);
    AttachOneOwner(m, l, z);
    AttachOrphans(m, l, z);
    hide OwnedInRange, OneOwner, SameOrphans;
  }

  lemma AttachInRange(m: Fs, l: Loc, z: int)
    requires CanAttach(m, l, z) && OwnedInRange(m) && OneOwner(m)
    ensures !l.Top? ==> InRange(m, ParentZone(m, l))
    ensures Shape(Attach(m, l, z)) && OwnedInRange(Attach(m, l, z))
  {
    AttachShape(m, l, z);
    var m' := Attach(m, l, z);
    forall r | Valid(m', r) && ZoneAt(m', r) != 0
      ensures InRange(m', ZoneAt(m', r)) && Allocated(m', ZoneAt(m', r))
    {
      AttachAt(m, l, z, r);
      if r != l {
        assert InRange(m, ZoneAt(m, r)) && Allocated(m, ZoneAt(m, r));
      }
      AttachBits(m, l, z, ZoneAt(m', r));
      hide Attach, ZoneAt, OneOwner;
    }
  }

  lemma AttachBits(m: Fs, l: Loc, z: int, y: int)
    requires CanAttach(m, l, z) && (!l.Top? ==> InRange(m, ParentZone(m, l)))
    requires Shape(Attach(m, l, z))
    ensures InRange(Attach(m, l, z), y) <==> InRange(m, y)
    ensures InRange(m, y) ==> (Allocated(Attach(m, l, z), y) <==> y == z || Allocated(m, y))
  {
  }

  lemma AttachOneOwner(m: Fs, l: Loc, z: int)
    requires CanAttach(m, l, z) && OwnedInRange(m) && OneOwner(m)
    ensures !l.Top? ==> InRange(m, ParentZone(m, l))
    ensures Shape(Attach(m, l, z)) && OneOwner(Attach(m, l, z))
  {
    AttachShape(m, l, z);
    var m' := Attach(m, l, z);
    forall r, q | Coincide(m', r, q)
      ensures r == q
    {
      AttachAt(m, l, z, r);
      AttachAt(m, l, z, q);
      FreeIsNotOwned(m, r, z);
      FreeIsNotOwned(m, q, z);
      assert r == l || q == l || Coincide(m, r, q);
    }
  }

  lemma AttachOrphans(m: Fs, l: Loc, z: int)
    requires CanAttach(m, l, z) && OwnedInRange(m) && OneOwner(m)
    ensures !l.Top? ==> InRange(m, ParentZone(m, l))
    ensures Shape(Attach(m, l, z)) && SameOrphans(m, Attach(m, l, z))
  {
    AttachShape(m, l, z);
    var m' := Attach(m, l, z);
    forall y
      ensures Orphan(m', y) <==> Orphan(m, y)
    {
      AttachBits(m, l, z, y);
      AttachAt(m, l, z, l);
      assert y == z ==> Owns(m', l, y);
      forall r
        ensures y != z && InRange(m, y) ==> (Owns(m', r, y) <==> Owns(m, r, y))
      {
        if Valid(m, r) {
          AttachAt(m, l, z, r);
        }
      }
    }
  }

  lemma AttachKeeps(m: Fs, l: Loc, z: int)
    requires CanAttach(m, l, z) && Inv(m)
    ensures !l.Top? ==> InRange(m, ParentZone(m, l))
    ensures Inv(Attach(m, l, z)) && |Attach(m, l, z).inode| == |m.inode| && SameOrphans(m, Attach(m, l, z))
    ensures forall ino :: 0 <= ino < |m.inode| ==> Content(Attach(m, l, z), ino) == Content(m, ino)
  {
    hide OwnedInRange, OneOwner, SameOrphans, Attach, ByteAt;
    AttachShape(m, l, z);
    AttachOwners(m, l, z);
    var m' := Attach(m, l, z);
    AttachSizes(m, l, z);
    forall ino, p | 0 <= ino < |m.inode| && 0 <= p < MAX_BYTES
      ensures ByteAt(m', ino, p) == ByteAt(m, ino, p)
    {
      AttachByte(m, l, z, ino, p);
    }
  }

  lemma AttachSizes(m: Fs, l: Loc, z: int)
    requires CanAttach(m, l, z) && (!l.Top? ==> InRange(m, ParentZone(m, l)))
    ensures |Attach(m, l, z).inode| == |m.inode|
    ensures forall ino :: 0 <= ino < |m.inode| ==> Attach(m, l, z).inode[ino].size == m.inode[ino].size
  {
  }

  // ---- writing a data block ----

  /** Overwriting the block of one data location (and possibly growing its file)
      changes that block's bytes and nothing else. */
  function PutBlock(m: Fs, z: int, b: Block, ino: int, size: int): Fs
    requires InRange(m, z) && |m.disk| == m.nzones && 0 <= ino < |m.inode| && 0 <= m.first
  {
    Fs(m.first, m.nzones, m.zmap, m.disk[z := b], m.inode[ino := m.inode[ino].(size := size)])
  }

  lemma PutBlockAt(m: Fs, l: Loc, b: Block, ino: int, size: int, r: Loc)
    requires Shape(m) && OwnedInRange(m) && OneOwner(m) && Valid(m, l) && IsData(l) && ZoneAt(m, l) != 0
    requires Valid(m, r) && 0 <= ino < |m.inode|
    ensures InRange(m, ZoneAt(m, l))
    ensures var m' := PutBlock(m, ZoneAt(m, l), b, ino, size);
      Shape(m') && Valid(m', r) && ZoneAt(m', r) == ZoneAt(m, r)
    decreases r.Low?, r.Mid?
  {
    var z := ZoneAt(m, l);
    assert InRange(m, z);
    var m' := PutBlock(m, z, b, ino, size);
    if !r.Top? {
      assert Valid(m, ParentLoc(r));
      PutBlockAt(m, l, b, ino, size, ParentLoc(r));
      ParentIsOwned(m, r);
      assert ParentZone(m', r) == ParentZone(m, r);
      if ParentZone(m, r) == z {
        assert Coincide(m, ParentLoc(r), l);
      }
    }
  }

  lemma PutBlockByte(m: Fs, ino: int, n: int, b: Block, size: int, jno: int, p: int)
    requires Shape(m) && OwnedInRange(m) && OneOwner(m) && 0 <= ino < |m.inode| && 0 <= n < MAX_BLOCKS
    requires Valid(m, BlockLoc(ino, n)) && ZoneAt(m, BlockLoc(ino, n)) != 0
    requires 0 <= jno < |m.inode| && 0 <= p < MAX_BYTES
    ensures InRange(m, ZoneAt(m, BlockLoc(ino, n)))
    ensures var m' := PutBlock(m, ZoneAt(m, BlockLoc(ino, n)), b, ino, size);
      Shape(m') && ByteAt(m', jno, p) == if jno == ino && p / BLOCK_SIZE == n then b[p % BLOCK_SIZE]
        else ByteAt(m, jno, p)
  {
    var l, r := BlockLoc(ino, n), BlockLoc(jno, p / BLOCK_SIZE);
    BlockLocValid(m, ino, n);
    BlockLocValid(m, jno, p / BLOCK_SIZE);
    PutBlockAt(m, l, b, ino, size, r);
    if ZoneAt(m, r) == ZoneAt(m, l) {
      assert Coincide(m, l, r);
      BlockLocInjective(ino, n, jno, p / BLOCK_SIZE);
    }
  }

  lemma PutBlockOwners(m: Fs, l: Loc, b: Block, ino: int, size: int)
    requires Shape(m) && OwnedInRange(m) && OneOwner(m) && Valid(m, l) && IsData(l) && ZoneAt(m, l) != 0
    requires 0 <= ino < |m.inode|
    ensures InRange(m, ZoneAt(m, l))
    ensures var m' := PutBlock(m, ZoneAt(m, l), b, ino, size);
      Shape(m') && OwnedInRange(m') && OneOwner(m') && SameOrphans(m, m')
  {
    assert InRange(m, ZoneAt(m, l));
    var m' := PutBlock(m, ZoneAt(m, l), b, ino, size);
    SameZones(m, m') by {
      forall r | Valid(m, r)
        ensures Valid(m', r) && ZoneAt(m', r) == ZoneAt(m, r)
      {
        PutBlockAt(m, l, b, ino, size, r);
      }
    }
  }

  /** Equal zones and equal bits: equal ownership. */
  lemma SameZones(m: Fs, m': Fs)
    requires Shape(m) && Shape(m') && OwnedInRange(m) && OneOwner(m)
    requires m'.first == m.first && m'.nzones == m.nzones && |m'.inode| == |m.inode|
    requires forall z :: InRange(m, z) ==> Allocated(m', z) == Allocated(m, z)
    requires forall r :: Valid(m, r) ==> Valid(m', r) && ZoneAt(m', r) == ZoneAt(m, r)
    ensures OwnedInRange(m') && OneOwner(m') && SameOrphans(m, m')
  {
    assert forall r :: Valid(m', r) ==> Valid(m, r);
    forall l, r | Coincide(m', l, r)
      ensures l == r
    {
      assert Coincide(m, l, r);
    }
    forall z
      ensures Orphan(m', z) <==> Orphan(m, z)
    {
      assert forall l :: Owns(m', l, z) <==> Owns(m, l, z);
    }
  }
}
