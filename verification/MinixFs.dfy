/** The zone allocator, block map, truncation and file I/O of the MINIX file system
    (fs/bitmap.c, fs/inode.c, fs/truncate.c, fs/file_dev.c), updated in place. */
module MinixFs {
  import opened BlockModel

  /** An array after writing `data` at `pos`: zeros fill a gap past the old end. */
  function Written(was: seq<Byte>, pos: int, data: seq<Byte>): seq<Byte>
    requires 0 <= pos
  {
    if data == [] then was
    else
      var size := if |was| < pos + |data| then pos + |data| else |was|;
      seq(size, p requires 0 <= p < size => WrittenByte(was, pos, data, p))
  }

  function WrittenByte(was: seq<Byte>, pos: int, data: seq<Byte>, p: int): Byte
    requires 0 <= p
  {
    if pos <= p < pos + |data| then data[p - pos] else if p < |was| then was[p] else 0
  }

  /** What a read of n bytes at pos delivers. */
  function ReadOf(content: seq<Byte>, pos: int, n: int): seq<Byte>
    requires 0 <= pos && 0 <= n
  {
    seq(n, k requires 0 <= k < n => if pos + k < |content| then content[pos + k] else 0)
  }

  /** No in-range zone is free. */
  ghost predicate Full(m: Fs)
    requires Shape(m)
  {
    forall z :: InRange(m, z) ==> Allocated(m, z)
  }

  class FileSystem {
    const first: int
    const nzones: int
    const zmap: array<bool>
    const disk: array<Block>
    const inode: array<Inode>

    ghost function St(): Fs
      reads zmap, disk, inode
    {
      Fs(first, nzones, zmap[..], disk[..], inode[..])
    }

    /** The zone map covers all zones in whole blocks of 8192 bits, at most 8 of
        them, and mounting sets bit 0 of the first. */
    ghost predicate MapOk()
      reads zmap
    {
      zmap.Length % BITS_PER_MAP == 0 && 0 < zmap.Length <= 8 * BITS_PER_MAP && zmap[0]
    }

    ghost predicate Valid()
      reads zmap, disk, inode
    {
      Shape(St()) && MapOk() && Inv(St())
    }

    /** A file system without files: only bit 0 of the map is set. */
    constructor (firstZone: int, zones: int, mapBlocks: int, inodes: nat)
      requires 1 <= firstZone < zones <= 65536 && 1 <= mapBlocks <= 8
        && zones - firstZone + 1 <= mapBlocks * BITS_PER_MAP
      ensures Valid() && first == firstZone && nzones == zones && inode.Length == inodes
      ensures fresh(zmap) && fresh(disk) && fresh(inode)
    {
      first, nzones := firstZone, zones;
      zmap := new bool[mapBlocks * BITS_PER_MAP](b => b == 0);
      disk := new Block[zones](_ => ZeroBlock());
      inode := new Inode[inodes](_ => Inode([0, 0, 0, 0, 0, 0, 0, 0, 0], 0, true));
      new;
      EmptyInv(St());
    }

    /** find_first_zero on one map block, which starts at bit `base`: 8192 if it has no zero. */
    method FindFirstZero(base: int) returns (j: int)
      requires 0 <= base && base + BITS_PER_MAP <= zmap.Length
      ensures 0 <= j <= BITS_PER_MAP
      ensures forall k :: base <= k < base + j ==> zmap[k]
      ensures j < BITS_PER_MAP ==> !zmap[base + j]
    {
      j := 0;
      while j < BITS_PER_MAP && zmap[base + j]
        invariant 0 <= j <= BITS_PER_MAP
        invariant forall k :: base <= k < base + j ==> zmap[k]
      {
        j := j + 1;
      }
    }

    /** The search loop of new_block over the map blocks: the lowest clear bit, or
        the length of the map. */
    method FindFree() returns (b: int)
      requires MapOk()
      ensures 0 < b <= zmap.Length
      ensures forall k :: 0 <= k < b ==> zmap[k]
      ensures b < zmap.Length ==> !zmap[b]
    {
      var i := 0;
      while i < zmap.Length / BITS_PER_MAP
        invariant 0 <= i <= zmap.Length / BITS_PER_MAP
        invariant forall k :: 0 <= k < i * BITS_PER_MAP ==> zmap[k]
      {
        var j := FindFirstZero(i * BITS_PER_MAP);
        if j < BITS_PER_MAP {
          return i * BITS_PER_MAP + j;
        }
        i := i + 1;
      }
      b := zmap.Length;
    }

    /** new_block: the lowest free zone, marked and cleared; 0 only if no in-range
        zone is free (then a bit past the last zone may get set). */
    method NewBlock() returns (z: int)
      requires Shape(St()) && MapOk()
      modifies zmap, disk
      ensures Shape(St()) && MapOk()
      ensures z != 0 ==> InRange(St(), z) && old(!Allocated(St(), z))
      ensures z != 0 ==> forall y :: first <= y < z ==> old(Allocated(St(), y))
      ensures z != 0 ==> zmap[..] == old(zmap[..])[z - first + 1 := true] && disk[..] == old(disk[..])[z := ZeroBlock()]
      ensures z == 0 ==> old(Full(St())) && disk[..] == old(disk[..]) && SameBits(old(St()), St())
    {
      var b := FindFree();
      assert forall y :: first <= y < b + first - 1 && InRange(St(), y) ==> Allocated(St(), y);
      if b == zmap.Length {
        return 0;
      }
      zmap[b] := true;
      z := b + first - 1;
      if z >= nzones {
        return 0;
      }
      disk[z] := ZeroBlock();
    }

    // ---- _bmap ----

    /** The number found at l. */
    method LoadZone(l: Loc) returns (z: int)
      requires Shape(St()) && BlockModel.Valid(St(), l) && (!l.Top? ==> InRange(St(), ParentZone(St(), l)))
      ensures z == ZoneAt(St(), l)
    {
      match l {
        case Top(ino, k) => z := inode[ino].zone[k];
        case Mid(ino, k, a) => z := Word(disk[inode[ino].zone[k]], a);
        case Low(ino, a, b) => z := Word(disk[Word(disk[inode[ino].zone[8]], a)], b);
      }
    }

    /** z, just taken and cleared, is stored at l. */
    method StoreZone(l: Loc, z: int, ghost m: Fs)
      requires Shape(m) && BlockModel.Valid(m, l) && InRange(m, z)
        && (!l.Top? ==> InRange(m, ParentZone(m, l)) && ParentZone(m, l) != z)
      requires l.Low? ==> m.inode[l.ino].zone[8] != z && InRange(m, m.inode[l.ino].zone[8])
      requires first == m.first && nzones == m.nzones && inode[..] == m.inode
      requires zmap[..] == m.zmap[BitOf(m, z) := true] && disk[..] == m.disk[z := ZeroBlock()]
      modifies disk, inode
      ensures St() == Attach(m, l, z)
    {
      match l {
        case Top(ino, k) =>
          inode[ino] := inode[ino].(zone := inode[ino].zone[k := z]);
        case Mid(ino, k, a) =>
          var p := inode[ino].zone[k];
          disk[p] := SetWord(disk[p], a, z);
        case Low(ino, a, b) =>
          var p := Word(disk[inode[ino].zone[8]], a);
          disk[p] := SetWord(disk[p], b, z);
      }
    }

    /** The zone stored at `l`; with `create`, a missing one is allocated and stored
        (one "if (create && !i)" of _bmap). */
    method Slot(l: Loc, create: bool) returns (z: int)
      requires Valid() && BlockModel.Valid(St(), l)
      requires !l.Top? ==> ParentZone(St(), l) != 0
      modifies zmap, disk, inode
      ensures Valid() && z == ZoneAt(St(), l)
      ensures Extends(old(St()), St(), l)
      ensures !create ==> St() == old(St())
      ensures create && z == 0 ==> Full(St())
    {
      hide OwnedInRange, OneOwner, SameOrphans, TailsZero, SizesOk, BlockModel.Content;
      ghost var m := St();
      InvParts(m);
      if !l.Top? {
        ParentIsOwned(m, l);
      }
      z := LoadZone(l);
      ExtendsSelf(m, l);
      if !create || z != 0 {
        return;
      }
      z := NewBlock();
      if z == 0 {
        SameBitsKeeps(m, St(), l);
        return;
      }
      AttachKeeps(m, l, z);
      AttachExtends(m, l, z);
      StoreZone(l, z, m);
    }

    /** _bmap: the zone of the n-th block of a file, or 0.  With `create`, missing
        index blocks and the block itself are allocated on the way; no file changes
        its contents, no other location its zone, and 0 means the disk is full. */
    method Bmap(ino: int, n: int, create: bool) returns (z: int)
      requires Valid() && 0 <= ino < inode.Length && 0 <= n < MAX_BLOCKS
      modifies zmap, disk, inode
      ensures Valid() && BlockModel.Valid(St(), BlockLoc(ino, n)) && z == ZoneAt(St(), BlockLoc(ino, n))
      ensures SameFiles(old(St()), St())
      ensures forall q ::
                BlockModel.Valid(old(St()), q) && !OnPath(ino, n, q) ==> ZoneAt(St(), q) == old(ZoneAt(St(), q))
      ensures forall q ::
                BlockModel.Valid(old(St()), q) && old(ZoneAt(St(), q)) != 0 ==> ZoneAt(St(), q) == old(ZoneAt(St(), q))
      ensures !create ==> St() == old(St())
      ensures create && z == 0 ==> Full(St())
    {
      hide Inv, SizesOk, ZoneAt, BlockModel.Content;
      SelfFiles(St());
      if n < DIRECT {
        z := Slot(Top(ino, n), create);
        return;
      }
      var k := n - DIRECT;
      if k < ENTRIES {
        z := Slot(Top(ino, 7), create);
        TopParent(St(), ino, 7, k);
        if z != 0 {
          z := Slot(Mid(ino, 7, k), create);
        }
        return;
      }
      k := k - ENTRIES;
      z := Slot(Top(ino, 8), create);
      TopParent(St(), ino, 8, k / ENTRIES);
      LowParent(St(), ino, k / ENTRIES, k % ENTRIES);
      if z == 0 {
        return;
      }
      z := Slot(Mid(ino, 8, k / ENTRIES), create);
      LowParent(St(), ino, k / ENTRIES, k % ENTRIES);
      if z != 0 {
        z := Slot(Low(ino, k / ENTRIES, k % ENTRIES), create);
      }
    }
  
    // ---- truncate ----

    /** free_block; its two panics are the precondition. `others` are the zones whose
        cached buffers are in use by other tasks: such a zone keeps its bit. */
    method FreeBlock(z: int, others: set<int>)
      requires Shape(St()) && MapOk() && InRange(St(), z) && Allocated(St(), z)
      modifies zmap
      ensures Shape(St()) && MapOk() && Cleared(old(St()), St())
      ensures forall y ::
                InRange(St(), y) ==> Allocated(St(), y) == (old(Allocated(St(), y)) && (y != z || y in others))
    {
      if z in others {
        return;
      }
      zmap[z - first + 1] := false;
    }

    method FreeInd(z: int, others: set<int>)
      requires Shape(St()) && MapOk() && GoodInd(St(), z)
      modifies zmap
      ensures Shape(St()) && MapOk() && Cleared(old(St()), St())
      ensures forall y ::
                InRange(St(), y) ==>
                  Allocated(St(), y) == (old(Allocated(St(), y)) && (!InInd(old(St()), z, y) || y in others))
    {
      if z == 0 {
        return;
      }
      ghost var m := St();
      var i := 0;
      while i < ENTRIES
        invariant 0 <= i <= ENTRIES && Shape(St()) && MapOk() && Cleared(m, St())
        invariant forall y :: InRange(m, y) ==>
          (Allocated(St(), y) <==>
             Allocated(m, y) && (y in others || !exists j :: 0 <= j < i && Entry(m, z, j) == y))
      {
        var w := Word(disk[z], i);
        assert w == Entry(m, z, i);
        if w != 0 {
          FreeBlock(w, others);
        }
        i := i + 1;
      }
      FreeBlock(z, others);
    }

    method FreeDind(z: int, others: set<int>)
      requires Shape(St()) && MapOk() && GoodDind(St(), z)
      modifies zmap
      ensures Shape(St()) && MapOk() && Cleared(old(St()), St())
      ensures forall y ::
                InRange(St(), y) ==>
                  Allocated(St(), y) == (old(Allocated(St(), y)) && (!InDind(old(St()), z, y) || y in others))
    {
      if z == 0 {
        return;
      }
      ghost var m := St();
      var i := 0;
      while i < ENTRIES
        invariant 0 <= i <= ENTRIES && Shape(St()) && MapOk() && Cleared(m, St())
        invariant forall y :: InRange(m, y) ==>
          (Allocated(St(), y) <==>
             Allocated(m, y) && (y in others || !exists a :: 0 <= a < i && InInd(m, Entry(m, z, a), y)))
      {
        ghost var r := St();
        var w := Word(disk[z], i);
        assert w == Entry(m, z, i);
        NextInd(m, r, z, i, others);
        ClearedInd(m, r, w);
        FreeInd(w, others);
        i := i + 1;
      }
      FreeBlock(z, others);
    }
  
    /** The loop of truncate over the seven direct zones. */
    method FreeDirect(ino: int, others: set<int>)
      requires Valid() && 0 <= ino < inode.Length
      modifies zmap, inode
      ensures Shape(St()) && MapOk() && Cleared(old(St()), St())
      ensures inode[..] == old(inode[..])[ino := inode[ino]] && inode[ino].regular == old(inode[ino].regular)
      ensures forall k :: 0 <= k < 9 ==> inode[ino].zone[k] == if k < 7 then 0 else old(inode[ino].zone[k])
      ensures WithoutDirect(old(St()), St(), ino, 7, others)
    {
      hide OwnedInRange, OneOwner, SameOrphans, TailsZero, BlockModel.Content;
      ghost var m := St();
      var i := 0;
      while i < 7
        invariant 0 <= i <= 7 && Shape(St()) && MapOk() && Cleared(m, St())
        invariant inode[..] == m.inode[ino := inode[ino]] && inode[ino].regular == m.inode[ino].regular
        invariant forall k :: 0 <= k < 9 ==> inode[ino].zone[k] == if k < i then 0 else m.inode[ino].zone[k]
        invariant WithoutDirect(m, St(), ino, i, others)
      {
        if inode[ino].zone[i] != 0 {
          DirectGood(m, ino, i);
          FreeBlock(inode[ino].zone[i], others);
          inode[ino] := inode[ino].(zone := inode[ino].zone[i := 0]);
        }
        i := i + 1;
      }
    }

    /** truncate: exactly the zones of the file that no other task holds in the cache are
        returned to the map, no bit is ever found clear already, and the file becomes
        empty. The zones held lose their owner and keep their bits. */
    method Truncate(ino: int, others: set<int>)
      requires Valid() && 0 <= ino < inode.Length
      modifies zmap, inode
      ensures Valid()
      ensures !old(inode[ino].regular) ==> St() == old(St())
      ensures old(inode[ino].regular) ==> Emptied(old(St()), St(), ino, others)
      ensures old(inode[ino].regular) ==>
                forall y :: InRange(St(), y) ==>
                  (Orphan(St(), y) <==> old(Orphan(St(), y)) || (old(OwnedBy(St(), ino, y)) && y in others))
      ensures forall k :: 0 <= k < inode.Length && k != ino ==> Content(St(), k) == old(Content(St(), k))
      ensures old(inode[ino].regular) ==> Content(St(), ino) == []
    {
      hide OwnedInRange, OneOwner, Orphan, TailsZero, BlockModel.Content, InDind, InInd, GoodInd, GoodDind,
           WithoutDirect, OwnedBy;
      ghost var m := St();
      if !inode[ino].regular {
        return;
      }
      FreeDirect(ino, others);
      ghost var r := St();
      DirectApart(m, r, ino, others);
      FreeInd(inode[ino].zone[7], others);
      ghost var q := St();
      IndApart(m, r, q, ino, others);
      FreeDind(inode[ino].zone[8], others);
      ghost var t := St();
      TruncatedBits(m, r, q, t, ino, others);
      inode[ino] := inode[ino].(zone := inode[ino].zone[7 := 0][8 := 0], size := 0);
      assert forall y :: InRange(m, y) ==> Allocated(St(), y) == Allocated(t, y);
      assert inode[..] == m.inode[ino := inode[ino]];
      EmptiedKeeps(m, St(), ino, others);
      EmptiedOrphans(m, St(), ino, others);
    }
  
    // ---- file I/O ----

    /** file_read: block by block; a hole, or anything past the end, reads as zero.
        (sys_read has already cut `count` to the file size.) */
    method FileRead(ino: int, fpos: int, count: int) returns (out: seq<Byte>, pos: int)
      requires Valid() && 0 <= ino < inode.Length && 0 <= fpos && (count > 0 ==> fpos + count <= MAX_BYTES)
      modifies zmap, disk, inode
      ensures St() == old(St())
      ensures out == ReadOf(Content(St(), ino), fpos, if count > 0 then count else 0) && pos == fpos + |out|
    {
      hide Inv, BlockModel.Content, ZoneAt;
      out, pos := [], fpos;
      InvParts(St());
      var left := if count > 0 then count else 0;
      while left > 0
        invariant 0 <= left && St() == old(St()) && pos == fpos + |out|
        invariant |out| + left == if count > 0 then count else 0
        invariant forall k :: 0 <= k < |out| ==> out[k] == ByteAt(St(), ino, fpos + k)
      {
        var n := pos / BLOCK_SIZE;
        var nr := Bmap(ino, n, false);
        var off := pos % BLOCK_SIZE;
        var chars := if BLOCK_SIZE - off < left then BLOCK_SIZE - off else left;
        BlockBytes(St(), ino, pos, chars, nr);
        ghost var was := out;
        if nr != 0 {
          out := out + disk[nr][off..off + chars];
        } else {
          out := out + seq(chars, _ => 0);
        }
        forall k | 0 <= k < |out|
          ensures out[k] == ByteAt(St(), ino, fpos + k)
        {
          if k >= |was| {
            var j := k - |was|;
            assert pos + j == fpos + k;
            assert out[k] == if nr != 0 then disk[nr][off + j] else 0;
          }
        }
        pos, left := pos + chars, left - chars;
      }
      ReadIsContent(St(), ino, fpos, out);
    }

    /** One round of file_write: `data` lies within one block. */
    method WriteRound(ino: int, pos: int, data: seq<Byte>) returns (ok: bool)
      requires Valid() && 0 <= ino < inode.Length && data != []
      requires 0 <= pos && |data| <= BLOCK_SIZE - pos % BLOCK_SIZE && pos + |data| <= MAX_BYTES
      modifies zmap, disk, inode
      ensures Valid() && SizesOk(St()) && SizesOk(old(St()))
      ensures ok ==> Content(St(), ino) == Written(old(Content(St(), ino)), pos, data)
      ensures !ok ==> Content(St(), ino) == old(Content(St(), ino)) && Full(St())
      ensures SameOrphans(old(St()), St())
      ensures forall k :: 0 <= k < inode.Length && k != ino ==> Content(St(), k) == old(Content(St(), k))
      ensures forall k :: 0 <= k < inode.Length ==> inode[k].regular == old(inode[k].regular)
    {
      hide Inv, BlockModel.Content, ZoneAt, Full, Written;
      InvParts(St());
      var block := Bmap(ino, pos / BLOCK_SIZE, true);
      ghost var m := St();
      assert forall k :: 0 <= k < inode.Length ==> m.inode[k].regular == old(inode[k].regular) by {
        assert forall k :: 0 <= k < inode.Length ==> m.inode[k].regular == old(St()).inode[k].regular;
      }
      if block == 0 {
        return false;
      }
      WriteKeeps(m, ino, pos, data);
      var off := pos % BLOCK_SIZE;
      disk[block] := disk[block][..off] + data + disk[block][off + |data|..];
      if pos + |data| > inode[ino].size {
        inode[ino] := inode[ino].(size := pos + |data|);
      }
      ghost var size := if pos + |data| > m.inode[ino].size then pos + |data| else m.inode[ino].size;
      assert inode[..] == m.inode[ino := m.inode[ino].(size := size)];
      assert St() == WriteBlock(m, ino, pos, data);
      InvParts(St());
      ok := true;
    }

    /** file_write: the bytes written are the prefix buf[..n]; n is short only when
        the disk is full.  With `append` the write starts at the end of the file. */
    method FileWrite(ino: int, fpos: int, append: bool, buf: seq<Byte>) returns (ret: int, pos: int)
      requires Valid() && 0 <= ino < inode.Length && 0 <= fpos
      requires (if append then inode[ino].size else fpos) + |buf| <= MAX_BYTES
      modifies zmap, disk, inode
      ensures Valid()
      ensures ret == -1 || 0 < ret <= |buf|
      ensures var start, n := if append then old(inode[ino].size) else fpos, if ret < 0 then 0 else ret;
        && Content(St(), ino) == Written(old(Content(St(), ino)), start, buf[..n])
        && pos == (if append then fpos else start + n)
        && (n < |buf| ==> Full(St()))
      ensures SameOrphans(old(St()), St())
      ensures forall k :: 0 <= k < inode.Length && k != ino ==> Content(St(), k) == old(Content(St(), k))
      ensures forall k :: 0 <= k < inode.Length ==> inode[k].regular == old(inode[k].regular)
    {
      hide Inv, BlockModel.Content, Full, Written;
      ghost var was := Content(St(), ino) by { InvParts(St()); }
      InvParts(St());
      assert 0 <= inode[ino].size by { assert St().inode[ino] == inode[ino]; }
      pos := if append then inode[ino].size else fpos;
      ghost var start := pos;
      var i := 0;
      WrittenNothing(was, start, buf);
      var room := true;
      while i < |buf| && room
        invariant 0 <= i <= |buf| && Valid() && SizesOk(St()) && pos == start + i
        invariant Content(St(), ino) == Written(was, start, buf[..i])
        invariant forall k :: 0 <= k < inode.Length && k != ino ==> Content(St(), k) == old(Content(St(), k))
        invariant forall k :: 0 <= k < inode.Length ==> inode[k].regular == old(inode[k].regular)
        invariant (!room ==> Full(St())) && SameOrphans(old(St()), St())
        decreases room, |buf| - i
      {
        var off := pos % BLOCK_SIZE;
        var c := if BLOCK_SIZE - off > |buf| - i then |buf| - i else BLOCK_SIZE - off;
        room := WriteRound(ino, pos, buf[i..i + c]);
        if room {
          WrittenMore(was, start, buf, i, c);
          pos, i := pos + c, i + c;
        }
      }
      ret := if i > 0 then i else -1;
      if append {
        pos := fpos;
      }
    }
  }

  // ---- truncation ----

  /** y is the index block z or one of the zones it lists. */
  ghost predicate InInd(m: Fs, z: int, y: int)
    requires Shape(m)
  {
    z != 0 && (y == z || exists j :: 0 <= j < ENTRIES && Entry(m, z, j) == y)
  }

  ghost predicate InDind(m: Fs, z: int, y: int)
    requires Shape(m)
  {
    z != 0 && (y == z || exists a :: 0 <= a < ENTRIES && InInd(m, Entry(m, z, a), y))
  }

  /** The zones of a file, as far as truncate can free them one by one: each is in
      range and allocated, and no two places name the same zone. */
  ghost predicate GoodZone(m: Fs, y: int)
    requires Shape(m)
  {
    y != 0 ==> InRange(m, y) && Allocated(m, y)
  }

  ghost predicate GoodInd(m: Fs, z: int)
    requires Shape(m)
  {
    && GoodZone(m, z)
    && (z != 0 ==> forall j :: 0 <= j < ENTRIES ==> GoodZone(m, Entry(m, z, j)) && Entry(m, z, j) != z)
    && (z != 0 ==> forall j, k :: 0 <= j < k < ENTRIES && Entry(m, z, j) != 0 ==> Entry(m, z, j) != Entry(m, z, k))
  }

  ghost predicate GoodDind(m: Fs, z: int)
    requires Shape(m)
  {
    && GoodZone(m, z)
    && (z != 0 ==> forall a :: 0 <= a < ENTRIES ==> GoodInd(m, Entry(m, z, a)) && !InInd(m, Entry(m, z, a), z))
    && (z != 0 ==> forall a, b, y ::
      0 <= a < b < ENTRIES && InInd(m, Entry(m, z, a), y) && y != 0 ==> !InInd(m, Entry(m, z, b), y))
  }

  /** r is m with the bits of some zones cleared. */
  ghost predicate Cleared(m: Fs, r: Fs)
    requires Shape(m)
  {
    Shape(r) && r.first == m.first && r.nzones == m.nzones && r.disk == m.disk
  }

  lemma ClearedEntries(m: Fs, r: Fs)
    requires Shape(m) && Cleared(m, r)
    ensures forall z, j :: 0 <= j < ENTRIES ==> Entry(r, z, j) == Entry(m, z, j)
  {
  }

  lemma ClearedInd(m: Fs, r: Fs, z: int)
    requires Shape(m) && Cleared(m, r)
    ensures forall y :: InInd(r, z, y) <==> InInd(m, z, y)
  {
    ClearedEntries(m, r);
  }

  lemma GoodIndStays(m: Fs, r: Fs, z: int)
    requires Shape(m) && Cleared(m, r) && GoodInd(m, z)
    requires forall y :: InRange(m, y) && InInd(m, z, y) ==> Allocated(r, y)
    ensures GoodInd(r, z)
  {
    ClearedEntries(m, r);
    assert forall j :: 0 <= j < ENTRIES && z != 0 ==> InInd(m, z, Entry(m, z, j));
  }

  lemma NextInd(m: Fs, r: Fs, z: int, i: int, others: set<int>)
    requires Shape(m) && Cleared(m, r) && GoodDind(m, z) && z != 0 && 0 <= i < ENTRIES
    requires forall y :: InRange(m, y) ==>
      (Allocated(r, y) <==> Allocated(m, y) && (y in others || !exists a :: 0 <= a < i && InInd(m, Entry(m, z, a), y)))
    ensures GoodInd(r, Entry(m, z, i))
  {
    var w := Entry(m, z, i);
    forall y | InRange(m, y) && InInd(m, w, y)
      ensures Allocated(r, y)
    {
      assert Allocated(m, y);
      assert forall a :: 0 <= a < i && InInd(m, Entry(m, z, a), y) ==> !InInd(m, Entry(m, z, i), y);
    }
    GoodIndStays(m, r, w);
  }

  /** r is m with the first n direct zones of a file given back, but for those others hold. */
  ghost predicate WithoutDirect(m: Fs, r: Fs, ino: int, n: int, others: set<int>)
    requires Shape(m) && Shape(r) && Cleared(m, r) && 0 <= ino < |m.inode| && n <= 7
  {
    forall y :: InRange(m, y) ==>
      (Allocated(r, y) <==> Allocated(m, y) && (y in others || !exists k :: 0 <= k < n && m.inode[ino].zone[k] == y))
  }

  ghost predicate OwnedBy(m: Fs, ino: int, y: int)
    requires Shape(m)
  {
    exists l: Loc :: l.ino == ino && Owns(m, l, y)
  }

  /** r is m with the file emptied and exactly its zones outside `others` given back. */
  ghost predicate Emptied(m: Fs, r: Fs, ino: int, others: set<int>)
    requires Shape(m) && 0 <= ino < |m.inode|
  {
    && Cleared(m, r)
    && |r.inode| == |m.inode| && r.inode == m.inode[ino := r.inode[ino]]
    && r.inode[ino].size == 0 && r.inode[ino].regular == m.inode[ino].regular
    && (forall k :: 0 <= k < 9 ==> r.inode[ino].zone[k] == 0)
    && (forall y :: InRange(m, y) ==> (Allocated(r, y) <==> Allocated(m, y) && (!OwnedBy(m, ino, y) || y in others)))
  }

  lemma InIndOwner(m: Fs, ino: int, k: int, y: int)
    requires Shape(m) && 0 <= ino < |m.inode| && 7 <= k < 9 && y != 0
    ensures InInd(m, m.inode[ino].zone[k], y) <==>
      m.inode[ino].zone[k] != 0 && (Owns(m, Top(ino, k), y) || exists j :: Owns(m, Mid(ino, k, j), y))
  {
    var z := m.inode[ino].zone[k];
    assert forall j :: 0 <= j < ENTRIES ==> ZoneAt(m, Mid(ino, k, j)) == Entry(m, z, j);
    if j :| 0 <= j < ENTRIES && Entry(m, z, j) == y {
      assert Owns(m, Mid(ino, k, j), y);
    }
  }

  lemma InDindOwner(m: Fs, ino: int, a: int, y: int)
    requires Shape(m) && 0 <= ino < |m.inode| && 0 <= a < ENTRIES && y != 0
    ensures InInd(m, Entry(m, m.inode[ino].zone[8], a), y) <==>
      ZoneAt(m, Mid(ino, 8, a)) != 0 && (Owns(m, Mid(ino, 8, a), y) || exists b :: Owns(m, Low(ino, a, b), y))
  {
    var z := Entry(m, m.inode[ino].zone[8], a);
    assert forall b :: 0 <= b < ENTRIES ==> ZoneAt(m, Low(ino, a, b)) == Entry(m, z, b);
    if b :| 0 <= b < ENTRIES && Entry(m, z, b) == y {
      assert Owns(m, Low(ino, a, b), y);
    }
  }

  lemma IndOwner(m: Fs, ino: int, y: int) returns (l: Loc)
    requires Shape(m) && 0 <= ino < |m.inode| && y != 0 && InInd(m, m.inode[ino].zone[7], y)
    ensures Valid(m, l) && ZoneAt(m, l) == y && l.ino == ino && (l == Top(ino, 7) || (l.Mid? && l.k == 7))
  {
    InIndOwner(m, ino, 7, y);
    if Owns(m, Top(ino, 7), y) {
      l := Top(ino, 7);
    } else {
      var j :| Owns(m, Mid(ino, 7, j), y);
      l := Mid(ino, 7, j);
    }
  }

  lemma LowOwner(m: Fs, ino: int, a: int, y: int) returns (l: Loc)
    requires Shape(m) && 0 <= ino < |m.inode| && y != 0 && 0 <= a < ENTRIES
      && InInd(m, Entry(m, m.inode[ino].zone[8], a), y)
    ensures Valid(m, l) && ZoneAt(m, l) == y && l.ino == ino && (l == Mid(ino, 8, a) || (l.Low? && l.a == a))
  {
    InDindOwner(m, ino, a, y);
    if Owns(m, Mid(ino, 8, a), y) {
      l := Mid(ino, 8, a);
    } else {
      var b :| Owns(m, Low(ino, a, b), y);
      l := Low(ino, a, b);
    }
  }

  /** The tree under slot 7, and every second-level tree, can be freed piece by piece. */
  lemma IndGood(m: Fs, ino: int)
    requires Shape(m) && OwnedInRange(m) && OneOwner(m) && 0 <= ino < |m.inode|
    ensures GoodInd(m, m.inode[ino].zone[7])
  {
    var z := m.inode[ino].zone[7];
    assert Valid(m, Top(ino, 7)) && ZoneAt(m, Top(ino, 7)) == z;
    forall j | 0 <= j < ENTRIES && z != 0
      ensures GoodZone(m, Entry(m, z, j)) && Entry(m, z, j) != z
    {
      assert Valid(m, Mid(ino, 7, j)) && ZoneAt(m, Mid(ino, 7, j)) == Entry(m, z, j);
      assert !Coincide(m, Mid(ino, 7, j), Top(ino, 7));
    }
    forall j, k | 0 <= j < k < ENTRIES && Entry(m, z, j) != 0 && z != 0
      ensures Entry(m, z, j) != Entry(m, z, k)
    {
      assert !Coincide(m, Mid(ino, 7, j), Mid(ino, 7, k));
      assert ZoneAt(m, Mid(ino, 7, j)) == Entry(m, z, j) && ZoneAt(m, Mid(ino, 7, k)) == Entry(m, z, k);
    }
  }

  lemma LowGood(m: Fs, ino: int, a: int)
    requires Shape(m) && OwnedInRange(m) && OneOwner(m) && 0 <= ino < |m.inode| && 0 <= a < ENTRIES
    ensures GoodInd(m, Entry(m, m.inode[ino].zone[8], a))
  {
    var z := Entry(m, m.inode[ino].zone[8], a);
    assert Valid(m, Mid(ino, 8, a)) && ZoneAt(m, Mid(ino, 8, a)) == z;
    forall b | 0 <= b < ENTRIES && z != 0
      ensures GoodZone(m, Entry(m, z, b)) && Entry(m, z, b) != z
    {
      assert Valid(m, Low(ino, a, b)) && ZoneAt(m, Low(ino, a, b)) == Entry(m, z, b);
      assert !Coincide(m, Low(ino, a, b), Mid(ino, 8, a));
    }
    forall b, c | 0 <= b < c < ENTRIES && Entry(m, z, b) != 0 && z != 0
      ensures Entry(m, z, b) != Entry(m, z, c)
    {
      assert !Coincide(m, Low(ino, a, b), Low(ino, a, c));
      assert ZoneAt(m, Low(ino, a, b)) == Entry(m, z, b) && ZoneAt(m, Low(ino, a, c)) == Entry(m, z, c);
    }
  }

  lemma DindGood(m: Fs, ino: int)
    requires Shape(m) && OwnedInRange(m) && OneOwner(m) && 0 <= ino < |m.inode|
    ensures GoodDind(m, m.inode[ino].zone[8])
  {
    hide OneOwner, InInd, GoodInd;
    var z := m.inode[ino].zone[8];
    assert Valid(m, Top(ino, 8)) && ZoneAt(m, Top(ino, 8)) == z;
    forall a | 0 <= a < ENTRIES && z != 0
      ensures GoodInd(m, Entry(m, z, a)) && !InInd(m, Entry(m, z, a), z)
    {
      LowGood(m, ino, a);
      if InInd(m, Entry(m, z, a), z) {
        var l := LowOwner(m, ino, a, z);
        Clash(m, l, Top(ino, 8));
      }
    }
    forall a, c, y | 0 <= a < c < ENTRIES && InInd(m, Entry(m, z, a), y) && y != 0 && z != 0
      ensures !InInd(m, Entry(m, z, c), y)
    {
      if InInd(m, Entry(m, z, c), y) {
        var l := LowOwner(m, ino, a, y);
        var r := LowOwner(m, ino, c, y);
        Clash(m, l, r);
      }
    }
  }

  /** No zone has two owners. */
  lemma Clash(m: Fs, l: Loc, r: Loc)
    requires Shape(m) && OneOwner(m) && Valid(m, l) && Valid(m, r) && ZoneAt(m, l) == ZoneAt(m, r) != 0
    ensures l == r
  {
    assert Coincide(m, l, r);
  }

  lemma FileGood(m: Fs, ino: int)
    requires Inv(m) && 0 <= ino < |m.inode|
    ensures GoodInd(m, m.inode[ino].zone[7]) && GoodDind(m, m.inode[ino].zone[8])
  {
    IndGood(m, ino);
    DindGood(m, ino);
  }

  lemma DirectGood(m: Fs, ino: int, i: int)
    requires Inv(m) && 0 <= ino < |m.inode| && 0 <= i < 7 && m.inode[ino].zone[i] != 0
    ensures InRange(m, m.inode[ino].zone[i]) && Allocated(m, m.inode[ino].zone[i])
    ensures !exists k :: 0 <= k < i && m.inode[ino].zone[k] == m.inode[ino].zone[i]
  {
    assert Valid(m, Top(ino, i)) && ZoneAt(m, Top(ino, i)) == m.inode[ino].zone[i];
    if k :| 0 <= k < i && m.inode[ino].zone[k] == m.inode[ino].zone[i] {
      Clash(m, Top(ino, k), Top(ino, i));
    }
  }

  /** Direct zones are not in the index trees. */
  lemma DirectApart(m: Fs, r: Fs, ino: int, others: set<int>)
    requires Inv(m) && 0 <= ino < |m.inode| && Cleared(m, r)
    requires WithoutDirect(m, r, ino, 7, others)
    ensures GoodInd(r, m.inode[ino].zone[7])
    ensures GoodDind(m, m.inode[ino].zone[8])
  {
    hide OneOwner, InInd, GoodInd, GoodDind, SameOrphans, TailsZero;
    FileGood(m, ino);
    forall y | InRange(m, y) && InInd(m, m.inode[ino].zone[7], y)
      ensures Allocated(r, y)
    {
      var l := IndOwner(m, ino, y);
      if k :| 0 <= k < 7 && m.inode[ino].zone[k] == y {
        Clash(m, l, Top(ino, k));
      }
    }
    GoodIndStays(m, r, m.inode[ino].zone[7]);
  }

  lemma DindOwner(m: Fs, ino: int, y: int) returns (l: Loc)
    requires Shape(m) && 0 <= ino < |m.inode| && y != 0 && InDind(m, m.inode[ino].zone[8], y)
    ensures Valid(m, l) && ZoneAt(m, l) == y
      && (l == Top(ino, 8) || (l.Mid? && l.k == 8 && l.ino == ino) || (l.Low? && l.ino == ino))
  {
    var z := m.inode[ino].zone[8];
    if y == z {
      l := Top(ino, 8);
      assert Owns(m, l, y);
    } else {
      var a :| 0 <= a < ENTRIES && InInd(m, Entry(m, z, a), y);
      l := LowOwner(m, ino, a, y);
    }
  }

  lemma ClearedDind(m: Fs, r: Fs, z: int)
    requires Shape(m) && Cleared(m, r)
    ensures forall y :: InDind(r, z, y) <==> InDind(m, z, y)
  {
    hide InInd;
    ClearedEntries(m, r);
    forall w, y
      ensures InInd(r, w, y) <==> InInd(m, w, y)
    {
      ClearedInd(m, r, w);
    }
  }

  lemma GoodDindStays(m: Fs, r: Fs, z: int)
    requires Shape(m) && Cleared(m, r) && GoodDind(m, z)
    requires forall y :: InRange(m, y) && InDind(m, z, y) ==> Allocated(r, y)
    ensures GoodDind(r, z)
  {
    hide GoodInd, InInd;
    ClearedEntries(m, r);
    if z != 0 {
      forall a | 0 <= a < ENTRIES
        ensures GoodInd(r, Entry(r, z, a))
      {
        GoodIndStays(m, r, Entry(m, z, a));
      }
      forall w, y
        ensures InInd(r, w, y) <==> InInd(m, w, y)
      {
        ClearedInd(m, r, w);
      }
    }
  }

  /** Nor do the two index trees overlap. */
  lemma IndApart(m: Fs, r: Fs, q: Fs, ino: int, others: set<int>)
    requires Inv(m) && 0 <= ino < |m.inode| && Cleared(m, r) && Cleared(r, q)
    requires WithoutDirect(m, r, ino, 7, others)
    requires forall y ::
               InRange(r, y) ==>
                 Allocated(q, y) == (Allocated(r, y) && (!InInd(r, m.inode[ino].zone[7], y) || y in others))
    ensures Cleared(m, q) && GoodDind(q, m.inode[ino].zone[8])
  {
    hide OneOwner, InInd, InDind, GoodInd, GoodDind, SameOrphans, TailsZero;
    FileGood(m, ino);
    ClearedInd(m, r, m.inode[ino].zone[7]);
    forall y | InRange(m, y) && InDind(m, m.inode[ino].zone[8], y)
      ensures Allocated(q, y)
    {
      var l := DindOwner(m, ino, y);
      if k :| 0 <= k < 7 && m.inode[ino].zone[k] == y {
        Clash(m, l, Top(ino, k));
      }
      if InInd(m, m.inode[ino].zone[7], y) {
        var c := IndOwner(m, ino, y);
        Clash(m, l, c);
      }
    }
    GoodDindStays(m, q, m.inode[ino].zone[8]);
  }

  lemma TruncatedBits(m: Fs, r: Fs, q: Fs, t: Fs, ino: int, others: set<int>)
    requires Inv(m) && 0 <= ino < |m.inode| && Cleared(m, r) && Cleared(r, q) && Cleared(q, t)
    requires WithoutDirect(m, r, ino, 7, others)
    requires forall y ::
               InRange(r, y) ==>
                 Allocated(q, y) == (Allocated(r, y) && (!InInd(r, m.inode[ino].zone[7], y) || y in others))
    requires forall y ::
               InRange(q, y) ==>
                 Allocated(t, y) == (Allocated(q, y) && (!InDind(q, m.inode[ino].zone[8], y) || y in others))
    ensures Cleared(m, t)
    ensures forall y :: InRange(m, y) ==> (Allocated(t, y) <==> Allocated(m, y) && (!OwnedBy(m, ino, y) || y in others))
  {
    hide OneOwner, InInd, InDind, SameOrphans, TailsZero, OwnedBy;
    ClearedDind(m, q, m.inode[ino].zone[8]);
    ClearedInd(m, r, m.inode[ino].zone[7]);
    FileZones(m, ino);
  }

  /** The zones of a file are its direct zones and the two index trees. */
  lemma FileZones(m: Fs, ino: int)
    requires Inv(m) && 0 <= ino < |m.inode|
    ensures forall y :: InRange(m, y) ==> (OwnedBy(m, ino, y) <==>
      (exists k :: 0 <= k < 7 && m.inode[ino].zone[k] == y) || InInd(m, m.inode[ino].zone[7], y)
        || InDind(m, m.inode[ino].zone[8], y))
  {
    forall y | InRange(m, y)
      ensures OwnedBy(m, ino, y) <==>
        (exists k :: 0 <= k < 7 && m.inode[ino].zone[k] == y) || InInd(m, m.inode[ino].zone[7], y)
          || InDind(m, m.inode[ino].zone[8], y)
    {
      FileZone(m, ino, y);
    }
  }

  lemma FileZone(m: Fs, ino: int, y: int)
    requires Inv(m) && 0 <= ino < |m.inode| && InRange(m, y)
    ensures OwnedBy(m, ino, y) <==>
      (exists k :: 0 <= k < 7 && m.inode[ino].zone[k] == y) || InInd(m, m.inode[ino].zone[7], y)
        || InDind(m, m.inode[ino].zone[8], y)
  {
    hide InInd, OneOwner, SameOrphans, TailsZero;
    InIndOwner(m, ino, 7, y);
    if l: Loc :| l.ino == ino && Owns(m, l, y) {
      match l {
        case Top(_, k) =>
          if k == 7 {
            assert InInd(m, m.inode[ino].zone[7], y);
          }
        case Mid(_, k, a) =>
          ParentIsOwned(m, l);
          InDindOwner(m, ino, a, y);
        case Low(_, a, b) =>
          ParentIsOwned(m, l);
          ParentIsOwned(m, Mid(ino, 8, a));
          InDindOwner(m, ino, a, y);
      }
    } else {
      forall k | 0 <= k < 7
        ensures m.inode[ino].zone[k] != y
      {
        assert !Owns(m, Top(ino, k), y);
      }
      if InDind(m, m.inode[ino].zone[8], y) {
        var l := DindOwner(m, ino, y);
      }
    }
  }

  // ---- facts about extensions ----

  predicate OnPath(ino: int, n: int, q: Loc) {
    q == BlockLoc(ino, n)
    || (DIRECT <= n < DIRECT + ENTRIES && q == Top(ino, 7))
    || (DIRECT + ENTRIES <= n && (q == Top(ino, 8) || q == Mid(ino, 8, (n - DIRECT - ENTRIES) / ENTRIES)))
  }

  /** The same files with the same contents. */
  ghost predicate SameFiles(m: Fs, r: Fs)
    requires Shape(m) && Shape(r)
  {
    && |r.inode| == |m.inode| && r.first == m.first && r.nzones == m.nzones
    && SizesOk(m) && SizesOk(r) && SameOrphans(m, r)
    && forall ino ::
         0 <= ino < |m.inode| ==> Content(r, ino) == Content(m, ino) && r.inode[ino].regular == m.inode[ino].regular
  }

  lemma SelfFiles(m: Fs)
    requires Shape(m) && Inv(m)
    ensures SameFiles(m, m)
  {
  }

  lemma TopParent(m: Fs, ino: int, k: int, a: int)
    requires Shape(m) && Inv(m) && 0 <= ino < |m.inode| && 7 <= k < 9 && 0 <= a < ENTRIES
    ensures ParentZone(m, Mid(ino, k, a)) == ZoneAt(m, Top(ino, k))
    ensures ZoneAt(m, Top(ino, k)) == 0 ==> ZoneAt(m, Mid(ino, k, a)) == 0
  {
  }

  lemma LowParent(m: Fs, ino: int, a: int, b: int)
    requires Shape(m) && Inv(m) && 0 <= ino < |m.inode| && 0 <= a < ENTRIES && 0 <= b < ENTRIES
    ensures ParentZone(m, Low(ino, a, b)) == ZoneAt(m, Mid(ino, 8, a))
    ensures ZoneAt(m, Mid(ino, 8, a)) == 0 ==> ZoneAt(m, Low(ino, a, b)) == 0
    ensures ZoneAt(m, Top(ino, 8)) == 0 ==> ZoneAt(m, Low(ino, a, b)) == 0
  {
  }

  /** Setting a bit past the last zone changes nothing that matters. */
  lemma SameBitsKeeps(m: Fs, r: Fs, l: Loc)
    requires Shape(m) && Inv(m) && Shape(r) && SameBits(m, r) && r.disk == m.disk && r.inode == m.inode && Full(m)
    ensures Inv(r) && Extends(m, r, l) && Full(r)
    ensures BlockModel.Valid(m, l) ==> BlockModel.Valid(r, l) && ZoneAt(r, l) == ZoneAt(m, l)
  {
    forall q | BlockModel.Valid(m, q)
      ensures BlockModel.Valid(r, q) && ZoneAt(r, q) == ZoneAt(m, q)
    {
      SameDiskSameZone(m, r, q);
    }
    SameZones(m, r);
    forall ino, p | 0 <= ino < |m.inode| && 0 <= p < MAX_BYTES
      ensures ByteAt(r, ino, p) == ByteAt(m, ino, p)
    {
      BlockLocValid(m, ino, p / BLOCK_SIZE);
      SameDiskSameZone(m, r, BlockLoc(ino, p / BLOCK_SIZE));
    }
  }

  lemma SameDiskSameZone(m: Fs, r: Fs, q: Loc)
    requires Shape(m) && Shape(r) && r.first == m.first && r.nzones == m.nzones && r.disk == m.disk
      && r.inode == m.inode
    requires BlockModel.Valid(m, q)
    ensures BlockModel.Valid(r, q) && ZoneAt(r, q) == ZoneAt(m, q)
  {
    assert forall z, i :: 0 <= i < ENTRIES ==> Entry(r, z, i) == Entry(m, z, i);
  }

  lemma AttachExtends(m: Fs, l: Loc, z: int)
    requires CanAttach(m, l, z) && Inv(m)
    ensures !l.Top? ==> InRange(m, ParentZone(m, l))
    ensures Shape(Attach(m, l, z)) && Extends(m, Attach(m, l, z), l)
    ensures BlockModel.Valid(Attach(m, l, z), l) && ZoneAt(Attach(m, l, z), l) == z
  {
    hide Attach, ByteAt, BlockModel.Content;
    AttachShape(m, l, z);
    AttachKeeps(m, l, z);
    AttachRegular(m, l, z);
    forall q | BlockModel.Valid(m, q)
      ensures BlockModel.Valid(Attach(m, l, z), q) && ZoneAt(Attach(m, l, z), q) == if q == l then z else ZoneAt(m, q)
    {
      AttachAt(m, l, z, q);
    }
  }

  lemma AttachRegular(m: Fs, l: Loc, z: int)
    requires CanAttach(m, l, z) && (!l.Top? ==> InRange(m, ParentZone(m, l)))
    ensures |Attach(m, l, z).inode| == |m.inode| && Attach(m, l, z).first == m.first
      && Attach(m, l, z).nzones == m.nzones
    ensures forall ino :: 0 <= ino < |m.inode| ==> Attach(m, l, z).inode[ino].regular == m.inode[ino].regular
  {
  }

  lemma EmptyInv(m: Fs)
    requires Shape(m)
    requires forall k :: 0 <= k < |m.inode| ==> m.inode[k] == Inode([0, 0, 0, 0, 0, 0, 0, 0, 0], 0, true)
    requires forall z :: InRange(m, z) ==> !Allocated(m, z)
    ensures Inv(m)
  {
    assert forall l :: Valid(m, l) ==> ZoneAt(m, l) == 0;
  }

  lemma InvParts(m: Fs)
    requires Inv(m)
    ensures OwnedInRange(m) && OneOwner(m) && TailsZero(m) && SizesOk(m)
  {
  }

  /** The bits of in-range zones agree. */
  ghost predicate SameBits(m: Fs, r: Fs)
    requires Shape(m) && Shape(r)
  {
    r.first == m.first && r.nzones == m.nzones && forall z :: InRange(m, z) ==> Allocated(r, z) == Allocated(m, z)
  }

  /** r may have a zone at l that m lacks; all other zones, and all file contents, agree. */
  ghost predicate Extends(m: Fs, r: Fs, l: Loc)
    requires Shape(m) && Shape(r)
  {
    && |r.inode| == |m.inode| && r.first == m.first && r.nzones == m.nzones
    && (forall q :: BlockModel.Valid(m, q) && q != l ==> BlockModel.Valid(r, q) && ZoneAt(r, q) == ZoneAt(m, q))
    && (BlockModel.Valid(m, l) ==> BlockModel.Valid(r, l) && (ZoneAt(m, l) != 0 ==> ZoneAt(r, l) == ZoneAt(m, l)))
    && SizesOk(m) && SizesOk(r) && SameOrphans(m, r)
    && (forall ino ::
          0 <= ino < |m.inode| ==> Content(r, ino) == Content(m, ino) && r.inode[ino].regular == m.inode[ino].regular)
  }

  lemma ExtendsSelf(m: Fs, l: Loc)
    requires Shape(m) && SizesOk(m)
    ensures Extends(m, m, l)
  {
  }

  /** An emptied file leaves every other file, and the invariant, alone. */
  lemma EmptiedKeeps(m: Fs, r: Fs, ino: int, others: set<int>)
    requires Inv(m) && 0 <= ino < |m.inode| && Emptied(m, r, ino, others)
    ensures Inv(r) && Content(r, ino) == []
    ensures forall k :: 0 <= k < |m.inode| && k != ino ==> Content(r, k) == Content(m, k)
  {
    hide OneOwner, SameOrphans, OwnedInRange, TailsZero;
    EmptiedOwners(m, r, ino, others);
    forall k, p | 0 <= k < |m.inode| && 0 <= p < MAX_BYTES
      ensures ByteAt(r, k, p) == if k == ino then 0 else ByteAt(m, k, p)
    {
      BlockLocValid(m, k, p / BLOCK_SIZE);
      EmptiedAt(m, r, ino, others, BlockLoc(k, p / BLOCK_SIZE));
    }
    EmptiedTails(m, r, ino);
  }

  lemma EmptiedTails(m: Fs, r: Fs, ino: int)
    requires Shape(m) && Shape(r) && TailsZero(m) && 0 <= ino < |m.inode| && |r.inode| == |m.inode|
    requires forall k :: 0 <= k < |m.inode| && k != ino ==> r.inode[k] == m.inode[k]
    requires forall k, p :: 0 <= k < |m.inode| && 0 <= p < MAX_BYTES ==> ByteAt(r, k, p) == if k == ino then 0
      else ByteAt(m, k, p)
    ensures TailsZero(r)
  {
  }

  lemma EmptiedAt(m: Fs, r: Fs, ino: int, others: set<int>, q: Loc)
    requires Shape(m) && 0 <= ino < |m.inode| && Emptied(m, r, ino, others) && Valid(m, q)
    ensures Valid(r, q) && ZoneAt(r, q) == if q.ino == ino then 0 else ZoneAt(m, q)
  {
    ClearedEntries(m, r);
  }

  lemma EmptiedOwners(m: Fs, r: Fs, ino: int, others: set<int>)
    requires Inv(m) && 0 <= ino < |m.inode| && Emptied(m, r, ino, others)
    ensures OwnedInRange(r) && OneOwner(r)
  {
    forall q | Valid(r, q) && ZoneAt(r, q) != 0
      ensures InRange(r, ZoneAt(r, q)) && Allocated(r, ZoneAt(r, q))
    {
      EmptiedAt(m, r, ino, others, q);
      var y := ZoneAt(m, q);
      assert InRange(m, y) && Allocated(m, y);
      if l: Loc :| l.ino == ino && Owns(m, l, y) {
        Clash(m, l, q);
      }
    }
    forall q, l | Coincide(r, q, l)
      ensures q == l
    {
      EmptiedAt(m, r, ino, others, q);
      EmptiedAt(m, r, ino, others, l);
      Clash(m, q, l);
    }
  }

  /** The zones of the file that others hold are orphans from now on. */
  lemma EmptiedOrphans(m: Fs, r: Fs, ino: int, others: set<int>)
    requires Inv(m) && 0 <= ino < |m.inode| && Emptied(m, r, ino, others)
    ensures forall y :: InRange(m, y) ==>
              (Orphan(r, y) <==> Orphan(m, y) || (OwnedBy(m, ino, y) && y in others))
  {
    hide OwnedInRange, OneOwner, TailsZero, SizesOk, OwnedBy, Orphan;
    forall y | InRange(m, y)
      ensures Orphan(r, y) <==> Orphan(m, y) || (OwnedBy(m, ino, y) && y in others)
    {
      EmptiedOrphan(m, r, ino, others, y);
    }
  }

  lemma EmptiedOrphan(m: Fs, r: Fs, ino: int, others: set<int>, y: int)
    requires Inv(m) && 0 <= ino < |m.inode| && Emptied(m, r, ino, others) && InRange(m, y)
    ensures Orphan(r, y) <==> Orphan(m, y) || (OwnedBy(m, ino, y) && y in others)
  {
    forall q
      ensures Owns(r, q, y) <==> Owns(m, q, y) && q.ino != ino
    {
      if Valid(m, q) {
        EmptiedAt(m, r, ino, others, q);
      }
    }
    if l: Loc :| l.ino == ino && Owns(m, l, y) {
      assert OwnedBy(m, ino, y) && Allocated(m, y);
      forall q
        ensures !Owns(r, q, y)
      {
        assert Owns(m, q, y) ==> Coincide(m, q, l);
      }
    } else {
      assert !OwnedBy(m, ino, y);
    }
  }

  /** Truncating keeps ownership exact if and only if nobody else holds a zone of the
      file in the cache. */
  lemma TruncateTight(m: Fs, r: Fs, ino: int, others: set<int>)
    requires Inv(m) && 0 <= ino < |m.inode| && Emptied(m, r, ino, others) && NoOrphans(m)
    ensures NoOrphans(r) <==> forall y :: y in others && InRange(m, y) ==> !OwnedBy(m, ino, y)
  {
    hide OwnedInRange, OneOwner, TailsZero, SizesOk, OwnedBy, Orphan;
    EmptiedOrphans(m, r, ino, others);
    forall y
      ensures Orphan(r, y) ==> InRange(m, y)
    {
      OrphanInRange(m, r, ino, others, y);
    }
  }

  lemma OrphanInRange(m: Fs, r: Fs, ino: int, others: set<int>, y: int)
    requires Shape(m) && 0 <= ino < |m.inode| && Emptied(m, r, ino, others)
    ensures Orphan(r, y) ==> InRange(m, y)
  {
  }

  /** The failing input: another task is asleep reading the file's first block while it
      is truncated. The block keeps its bit for ever and belongs to nobody. */
  lemma HeldWhileTruncated(m: Fs, r: Fs, ino: int)
    requires Inv(m) && 0 <= ino < |m.inode| && m.inode[ino].zone[0] != 0
    requires Emptied(m, r, ino, {m.inode[ino].zone[0]})
    ensures Orphan(r, m.inode[ino].zone[0]) && !NoOrphans(r)
  {
    var z := m.inode[ino].zone[0];
    assert Owns(m, Top(ino, 0), z) && InRange(m, z);
    EmptiedOrphan(m, r, ino, {z}, z);
  }

  // ---- facts about file I/O ----

  lemma BlockBytes(m: Fs, ino: int, pos: int, chars: int, nr: int)
    requires Shape(m) && 0 <= ino < |m.inode| && 0 <= pos && 0 < chars <= BLOCK_SIZE - pos % BLOCK_SIZE
      && pos + chars <= MAX_BYTES
    requires OwnedInRange(m) && Valid(m, BlockLoc(ino, pos / BLOCK_SIZE))
      && nr == ZoneAt(m, BlockLoc(ino, pos / BLOCK_SIZE))
    ensures nr != 0 ==> InRange(m, nr)
    ensures forall p :: pos <= p < pos + chars ==>
              ByteAt(m, ino, p) == if nr != 0 then m.disk[nr][pos % BLOCK_SIZE + (p - pos)] else 0
  {
    assert nr != 0 ==> InRange(m, nr);
    forall p | pos <= p < pos + chars
      ensures ByteAt(m, ino, p) == if nr != 0 then m.disk[nr][pos % BLOCK_SIZE + (p - pos)] else 0
    {
      SameBlock(pos, p - pos);
    }
  }

  lemma SameBlock(pos: int, k: int)
    requires 0 <= pos && 0 <= k < BLOCK_SIZE - pos % BLOCK_SIZE
    ensures (pos + k) / BLOCK_SIZE == pos / BLOCK_SIZE && (pos + k) % BLOCK_SIZE == pos % BLOCK_SIZE + k
  {
  }

  lemma ReadIsContent(m: Fs, ino: int, pos: int, out: seq<Byte>)
    requires Shape(m) && SizesOk(m) && TailsZero(m) && 0 <= ino < |m.inode| && 0 <= pos
      && (|out| > 0 ==> pos + |out| <= MAX_BYTES)
    requires forall k :: 0 <= k < |out| ==> out[k] == ByteAt(m, ino, pos + k)
    ensures out == ReadOf(Content(m, ino), pos, |out|)
  {
  }

  /** The effect of one round of file_write on the state. */
  function WriteBlock(m: Fs, ino: int, pos: int, data: seq<Byte>): Fs
    requires Shape(m) && 0 <= ino < |m.inode| && 0 <= pos && pos / BLOCK_SIZE < MAX_BLOCKS
      && |data| <= BLOCK_SIZE - pos % BLOCK_SIZE
    requires Valid(m, BlockLoc(ino, pos / BLOCK_SIZE)) && InRange(m, ZoneAt(m, BlockLoc(ino, pos / BLOCK_SIZE)))
  {
    var z, off := ZoneAt(m, BlockLoc(ino, pos / BLOCK_SIZE)), pos % BLOCK_SIZE;
    var b := m.disk[z][..off] + data + m.disk[z][off + |data|..];
    PutBlock(m, z, b, ino, if pos + |data| > m.inode[ino].size then pos + |data| else m.inode[ino].size)
  }

  lemma WriteByte(m: Fs, ino: int, pos: int, data: seq<Byte>, jno: int, p: int)
    requires Shape(m) && OwnedInRange(m) && OneOwner(m) && 0 <= ino < |m.inode|
    requires 0 <= pos && |data| <= BLOCK_SIZE - pos % BLOCK_SIZE && pos + |data| <= MAX_BYTES && pos < MAX_BYTES
    requires Valid(m, BlockLoc(ino, pos / BLOCK_SIZE)) && ZoneAt(m, BlockLoc(ino, pos / BLOCK_SIZE)) != 0
    requires 0 <= jno < |m.inode| && 0 <= p < MAX_BYTES
    ensures InRange(m, ZoneAt(m, BlockLoc(ino, pos / BLOCK_SIZE)))
    ensures Shape(WriteBlock(m, ino, pos, data)) && |WriteBlock(m, ino, pos, data).inode| == |m.inode|
    ensures ByteAt(WriteBlock(m, ino, pos, data), jno, p) ==
      if jno == ino && pos <= p < pos + |data| then data[p - pos] else ByteAt(m, jno, p)
  {
    var z, off := ZoneAt(m, BlockLoc(ino, pos / BLOCK_SIZE)), pos % BLOCK_SIZE;
    assert InRange(m, z) && |m.disk[z]| == BLOCK_SIZE;
    var b := m.disk[z][..off] + data + m.disk[z][off + |data|..];
    var size := if pos + |data| > m.inode[ino].size then pos + |data| else m.inode[ino].size;
    PutBlockByte(m, ino, pos / BLOCK_SIZE, b, size, jno, p);
    assert jno == ino && p / BLOCK_SIZE == pos / BLOCK_SIZE ==> ByteAt(m, jno, p) == m.disk[z][p % BLOCK_SIZE];
    assert WriteBlock(m, ino, pos, data) == PutBlock(m, z, b, ino, size);
    hide ByteAt, ZoneAt, OwnedInRange, OneOwner, PutBlock, WriteBlock, Shape;
    WithinBlock(pos, |data|, p);
    if jno == ino && p / BLOCK_SIZE == pos / BLOCK_SIZE {
      Spliced(m.disk[z], off, data, p % BLOCK_SIZE);
    }
  }

  lemma WithinBlock(pos: int, n: int, p: int)
    requires 0 <= pos && 0 <= p && 0 <= n <= BLOCK_SIZE - pos % BLOCK_SIZE
    ensures pos <= p < pos + n ==> p / BLOCK_SIZE == pos / BLOCK_SIZE
    ensures p / BLOCK_SIZE == pos / BLOCK_SIZE ==> p - pos == p % BLOCK_SIZE - pos % BLOCK_SIZE
  {
  }

  lemma Spliced(d: seq<Byte>, off: int, data: seq<Byte>, k: int)
    requires 0 <= off && off + |data| <= |d| && 0 <= k < |d|
    ensures (d[..off] + data + d[off + |data|..])[k] == if off <= k < off + |data| then data[k - off] else d[k]
  {
  }

  lemma WriteKeeps(m: Fs, ino: int, pos: int, data: seq<Byte>)
    requires Inv(m) && 0 <= ino < |m.inode| && data != []
    requires 0 <= pos && |data| <= BLOCK_SIZE - pos % BLOCK_SIZE && pos + |data| <= MAX_BYTES
    requires Valid(m, BlockLoc(ino, pos / BLOCK_SIZE)) && ZoneAt(m, BlockLoc(ino, pos / BLOCK_SIZE)) != 0
    ensures SizesOk(m) && InRange(m, ZoneAt(m, BlockLoc(ino, pos / BLOCK_SIZE)))
    ensures Inv(WriteBlock(m, ino, pos, data)) && |WriteBlock(m, ino, pos, data).inode| == |m.inode|
    ensures SameOrphans(m, WriteBlock(m, ino, pos, data))
    ensures Content(WriteBlock(m, ino, pos, data), ino) == Written(Content(m, ino), pos, data)
    ensures forall k :: 0 <= k < |m.inode| && k != ino ==> Content(WriteBlock(m, ino, pos, data), k) == Content(m, k)
  {
    hide OneOwner, SameOrphans, ByteAt, ZoneAt, TailsZero, WriteBlock;
    var l := BlockLoc(ino, pos / BLOCK_SIZE);
    assert InRange(m, ZoneAt(m, l));
    WriteOwners(m, ino, pos, data);
    var r := WriteBlock(m, ino, pos, data);
    forall k, p | 0 <= k < |m.inode| && 0 <= p < MAX_BYTES
      ensures ByteAt(r, k, p) == if k == ino && pos <= p < pos + |data| then data[p - pos] else ByteAt(m, k, p)
    {
      WriteByte(m, ino, pos, data, k, p);
    }
    WriteTails(m, r, ino, pos, data);
  }

  lemma WriteOwners(m: Fs, ino: int, pos: int, data: seq<Byte>)
    requires Inv(m) && 0 <= ino < |m.inode| && data != []
    requires 0 <= pos && |data| <= BLOCK_SIZE - pos % BLOCK_SIZE && pos + |data| <= MAX_BYTES
    requires Valid(m, BlockLoc(ino, pos / BLOCK_SIZE)) && ZoneAt(m, BlockLoc(ino, pos / BLOCK_SIZE)) != 0
    ensures InRange(m, ZoneAt(m, BlockLoc(ino, pos / BLOCK_SIZE)))
    ensures var r := WriteBlock(m, ino, pos, data);
      && Shape(r) && OwnedInRange(r) && OneOwner(r) && SameOrphans(m, r) && SizesOk(r) && |r.inode| == |m.inode|
      && (forall k :: 0 <= k < |m.inode| && k != ino ==> r.inode[k] == m.inode[k])
      && r.inode[ino].size == if pos + |data| > m.inode[ino].size then pos + |data| else m.inode[ino].size
  {
    hide TailsZero, OneOwner, SameOrphans;
    var z, off := ZoneAt(m, BlockLoc(ino, pos / BLOCK_SIZE)), pos % BLOCK_SIZE;
    assert InRange(m, z);
    var b := m.disk[z][..off] + data + m.disk[z][off + |data|..];
    var size := if pos + |data| > m.inode[ino].size then pos + |data| else m.inode[ino].size;
    BlockLocValid(m, ino, pos / BLOCK_SIZE);
    PutBlockOwners(m, BlockLoc(ino, pos / BLOCK_SIZE), b, ino, size);
  }

  lemma WriteTails(m: Fs, r: Fs, ino: int, pos: int, data: seq<Byte>)
    requires Shape(m) && Shape(r) && TailsZero(m) && 0 <= ino < |m.inode| && |r.inode| == |m.inode| && 0 <= pos
    requires forall k :: 0 <= k < |m.inode| && k != ino ==> r.inode[k] == m.inode[k]
    requires r.inode[ino].size == if pos + |data| > m.inode[ino].size then pos + |data| else m.inode[ino].size
    requires SizesOk(m) && SizesOk(r)
    requires forall k, p :: 0 <= k < |m.inode| && 0 <= p < MAX_BYTES ==>
      ByteAt(r, k, p) == if k == ino && pos <= p < pos + |data| then data[p - pos] else ByteAt(m, k, p)
    requires data != []
    ensures TailsZero(r)
    ensures Content(r, ino) == Written(Content(m, ino), pos, data)
    ensures forall k :: 0 <= k < |m.inode| && k != ino ==> Content(r, k) == Content(m, k)
  {
    WrittenTails(m, r, ino, pos, data);
    WrittenContent(m, r, ino, pos, data);
    hide ByteAt, TailsZero;
    forall k | 0 <= k < |m.inode| && k != ino
      ensures Content(r, k) == Content(m, k)
    {
      assert forall p :: 0 <= p < m.inode[k].size ==> ByteAt(r, k, p) == ByteAt(m, k, p);
    }
  }

  lemma WrittenTails(m: Fs, r: Fs, ino: int, pos: int, data: seq<Byte>)
    requires Shape(m) && Shape(r) && TailsZero(m) && 0 <= ino < |m.inode| && |r.inode| == |m.inode| && 0 <= pos
    requires forall k :: 0 <= k < |m.inode| && k != ino ==> r.inode[k] == m.inode[k]
    requires r.inode[ino].size >= m.inode[ino].size && r.inode[ino].size >= pos + |data|
    requires forall k, p :: 0 <= k < |m.inode| && 0 <= p < MAX_BYTES ==>
      ByteAt(r, k, p) == if k == ino && pos <= p < pos + |data| then data[p - pos] else ByteAt(m, k, p)
    ensures TailsZero(r)
  {
    hide ByteAt;
    forall k, p | 0 <= k < |r.inode| && r.inode[k].size <= p < MAX_BYTES && 0 <= p
      ensures ByteAt(r, k, p) == 0
    {
      assert m.inode[k].size <= p;
    }
  }

  lemma WrittenAt(was: seq<Byte>, pos: int, data: seq<Byte>, p: int)
    requires 0 <= pos && data != [] && 0 <= p < |Written(was, pos, data)|
    ensures Written(was, pos, data)[p] == WrittenByte(was, pos, data, p)
  {
  }

  lemma WrittenContent(m: Fs, r: Fs, ino: int, pos: int, data: seq<Byte>)
    requires Shape(m) && Shape(r) && TailsZero(m) && 0 <= ino < |m.inode| && |r.inode| == |m.inode| && 0 <= pos
      && data != []
    requires r.inode[ino].size == if pos + |data| > m.inode[ino].size then pos + |data| else m.inode[ino].size
    requires SizesOk(m) && SizesOk(r)
    requires forall p :: 0 <= p < MAX_BYTES ==> ByteAt(r, ino, p) == if pos <= p < pos + |data| then data[p - pos]
      else ByteAt(m, ino, p)
    ensures Content(r, ino) == Written(Content(m, ino), pos, data)
  {
    hide ByteAt;
    var got, want := Content(r, ino), Written(Content(m, ino), pos, data);
    forall p | 0 <= p < |got|
      ensures got[p] == want[p]
    {
      assert got[p] == ByteAt(r, ino, p);
      assert p >= m.inode[ino].size ==> ByteAt(m, ino, p) == 0;
      WrittenAt(Content(m, ino), pos, data, p);
      hide Written, TailsZero;
    }
    assert got == want;
  }

  lemma WrittenNothing(was: seq<Byte>, pos: int, buf: seq<Byte>)
    requires 0 <= pos
    ensures Written(was, pos, buf[..0]) == was
  {
  }

  /** Two adjacent writes are one. */
  lemma WrittenMore(was: seq<Byte>, pos: int, buf: seq<Byte>, i: int, c: int)
    requires 0 <= pos && 0 <= i && 0 < c && i + c <= |buf|
    ensures Written(Written(was, pos, buf[..i]), pos + i, buf[i..i + c]) == Written(was, pos, buf[..i + c])
  {
    var a := Written(was, pos, buf[..i]);
    var b, d := Written(a, pos + i, buf[i..i + c]), Written(was, pos, buf[..i + c]);
    assert |b| == |d|;
    forall p | 0 <= p < |d|
      ensures b[p] == d[p]
    {
    }
  }
}
