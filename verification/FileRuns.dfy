/** Whole runs of reads, writes and truncations against the obvious model: a list
    of byte arrays. */
module FileRuns {
  import opened BlockModel
  import opened MinixFs

  datatype File = File(content: seq<Byte>, regular: bool)

  datatype Op =
    | Read(ino: int, pos: int, count: int)
    | Write(ino: int, pos: int, append: bool, buf: seq<Byte>)
    | Truncate(ino: int, others: set<int>)  // `others`: zones other tasks hold in the cache

  /** `Wrote(n)`: the first n bytes were accepted. */
  datatype Result = Bytes(out: seq<Byte>) | Wrote(n: int) | Done | Refused

  ghost function Files(m: Fs): seq<File>
    requires Shape(m) && SizesOk(m)
  {
    seq(|m.inode|, k requires 0 <= k < |m.inode| => File(Content(m, k), m.inode[k].regular))
  }

  /** Within the largest file _bmap can address; beyond that the kernel panics. */
  predicate Fits(files: seq<File>, op: Op) {
    0 <= op.ino < |files| &&
    match op
    case Read(_, pos, count) => 0 <= pos && (count > 0 ==> pos + count <= MAX_BYTES)
    case Write(ino, pos, append, buf) => 0 <= pos && (if append then |files[ino].content| else pos) + |buf| <= MAX_BYTES
    case Truncate(_, _) => true
  }

  /** The byte-array meaning of an operation that answered `res`. */
  function Step(files: seq<File>, op: Op, res: Result): seq<File> {
    if !Fits(files, op) then files else
    match op
    case Read(_, _, _) => files
    case Write(ino, pos, append, buf) =>
      var f := files[ino];
      var start := if append then |f.content| else pos;
      if res.Wrote? && 0 <= res.n <= |buf| then files[ino := f.(content := Written(f.content, start, buf[..res.n]))]
        else files
    case Truncate(ino, _) => if files[ino].regular then files[ino := files[ino].(content := [])] else files
  }

  /** The answers a byte array allows. */
  predicate Answers(files: seq<File>, op: Op, res: Result) {
    if !Fits(files, op) then res == Refused else
    match op
    case Read(ino, pos, count) => res == Bytes(ReadOf(files[ino].content, pos, if count > 0 then count else 0))
    case Write(_, _, _, buf) => res.Wrote? && 0 <= res.n <= |buf|
    case Truncate(_, _) => res == Done
  }

  ghost function RunFiles(files: seq<File>, ops: seq<Op>, rs: seq<Result>): seq<File>
    requires |ops| == |rs|
    decreases |ops|
  {
    if ops == [] then files
    else Step(RunFiles(files, ops[..|ops| - 1], rs[..|ops| - 1]), ops[|ops| - 1], rs[|ops| - 1])
  }

  ghost predicate AllAnswer(files: seq<File>, ops: seq<Op>, rs: seq<Result>)
    requires |ops| == |rs|
  {
    forall k :: 0 <= k < |ops| ==> Answers(RunFiles(files, ops[..k], rs[..k]), ops[k], rs[k])
  }

  /** Fewer bytes are taken only when no zone is left on the disk. */
  ghost predicate ShortOnlyIfFull(op: Op, res: Result, m: Fs)
    requires Shape(m)
  {
    op.Write? && res.Wrote? && res.n < |op.buf| ==> Full(m)
  }

  /** Nobody else holds a zone of a file that is being truncated. */
  ghost predicate Tight(m: Fs, op: Op)
    requires Shape(m)
  {
    op.Truncate? && 0 <= op.ino < |m.inode| && m.inode[op.ino].regular ==>
      forall y :: y in op.others && InRange(m, y) ==> !OwnedBy(m, op.ino, y)
  }

  lemma TruncateOrphans(m: Fs, r: Fs, ino: int, others: set<int>)
    requires Inv(m) && 0 <= ino < |m.inode| && m.inode[ino].regular && Emptied(m, r, ino, others)
    ensures NoOrphans(r) <==> NoOrphans(m) && Tight(m, Truncate(ino, others))
  {
    EmptiedOrphans(m, r, ino, others);
    if NoOrphans(m) {
      TruncateTight(m, r, ino, others);
    } else {
      var z :| Orphan(m, z);
      assert Orphan(r, z);
    }
  }

  method Perform(fs: FileSystem, op: Op) returns (res: Result)
    requires fs.Valid()
    modifies fs.zmap, fs.disk, fs.inode
    ensures fs.Valid() && SizesOk(fs.St()) && SizesOk(old(fs.St()))
    ensures Answers(old(Files(fs.St())), op, res) && ShortOnlyIfFull(op, res, fs.St())
    ensures Files(fs.St()) == Step(old(Files(fs.St())), op, res)
    ensures NoOrphans(fs.St()) <==> NoOrphans(old(fs.St())) && Tight(old(fs.St()), op)
  {
    hide Inv, BlockModel.Content, MinixFs.Written, Orphan, Full, OwnedBy;
    InvParts(fs.St());
    ghost var m := fs.St();
    ghost var files := Files(m);
    assert forall k :: 0 <= k < fs.inode.Length ==> |files[k].content| == fs.inode[k].size by { SizeIsLength(m); }
    assert |files| == fs.inode.Length;
    if !(0 <= op.ino < fs.inode.Length) {
      return Refused;
    }
    match op {
      case Read(ino, pos, count) =>
        if pos < 0 || (count > 0 && pos + count > MAX_BYTES) {
          return Refused;
        }
        var out, p := fs.FileRead(ino, pos, count);
        res := Bytes(out);
      case Write(ino, pos, append, buf) =>
        if pos < 0 || (if append then fs.inode[ino].size else pos) + |buf| > MAX_BYTES {
          return Refused;
        }
        var ret, p := fs.FileWrite(ino, pos, append, buf);
        res := Wrote(if ret < 0 then 0 else ret);
        InvParts(fs.St());
        assert Files(fs.St()) == Step(files, op, res);
      case Truncate(ino, others) =>
        fs.Truncate(ino, others);
        res := Done;
        InvParts(fs.St());
        assert Files(fs.St()) == Step(files, op, res);
        if fs.inode[ino].regular {
          TruncateOrphans(m, fs.St(), ino, others);
        }
    }
  }

  lemma SizeIsLength(m: Fs)
    requires Shape(m) && SizesOk(m)
    ensures forall k :: 0 <= k < |m.inode| ==> |Files(m)[k].content| == m.inode[k].size
  {
  }

  /** After any run, the files hold what the byte arrays hold, every read returned the
      bytes written last, zeros for holes and for gaps, and a write fell short only on a
      full disk. Ownership is exact at the end if and only if it was at the start and no
      file was truncated while somebody else held one of its blocks. `ms` holds the
      states before, between and after the calls. */
  method Run(fs: FileSystem, ops: seq<Op>) returns (rs: seq<Result>, ghost ms: seq<Fs>)
    requires fs.Valid()
    modifies fs.zmap, fs.disk, fs.inode
    ensures fs.Valid() && SizesOk(fs.St()) && SizesOk(old(fs.St())) && |rs| == |ops|
    ensures |ms| == |ops| + 1 && ms[0] == old(fs.St()) && ms[|ops|] == fs.St()
    ensures Files(fs.St()) == RunFiles(old(Files(fs.St())), ops, rs)
    ensures AllAnswer(old(Files(fs.St())), ops, rs)
    ensures forall k :: 0 <= k <= |ops| ==> Shape(ms[k]) && Inv(ms[k])
    ensures forall k :: 0 <= k < |ops| ==> ShortOnlyIfFull(ops[k], rs[k], ms[k + 1])
    ensures NoOrphans(fs.St())
      <==> NoOrphans(old(fs.St())) && forall k :: 0 <= k < |ops| ==> Tight(ms[k], ops[k])
  {
    hide Inv, Files, Step, Answers, ShortOnlyIfFull, Tight, NoOrphans;
    InvParts(fs.St());
    rs, ms := [], [fs.St()];
    ghost var files := Files(fs.St());
    for k := 0 to |ops|
      invariant fs.Valid() && SizesOk(fs.St()) && |rs| == k && |ms| == k + 1
      invariant ms[0] == old(fs.St()) && ms[k] == fs.St()
      invariant Files(fs.St()) == RunFiles(files, ops[..k], rs)
      invariant forall j :: 0 <= j < k ==> Answers(RunFiles(files, ops[..j], rs[..j]), ops[j], rs[j])
      invariant forall j :: 0 <= j <= k ==> Shape(ms[j]) && Inv(ms[j])
      invariant forall j :: 0 <= j < k ==> ShortOnlyIfFull(ops[j], rs[j], ms[j + 1])
      invariant NoOrphans(fs.St())
        <==> NoOrphans(old(fs.St())) && forall j :: 0 <= j < k ==> Tight(ms[j], ops[j])
    {
      var res := Perform(fs, ops[k]);
      assert ops[..k + 1][..k] == ops[..k] && (rs + [res])[..k] == rs;
      assert forall j :: 0 <= j < k ==> (rs + [res])[..j] == rs[..j];
      rs, ms := rs + [res], ms + [fs.St()];
    }
    assert ops[..|ops|] == ops;
  }

  // ---- ownership ----

  /** A zone's bit is set exactly when some place of some inode names the zone, and
      then only one does. */
  lemma OwnershipExact(m: Fs, z: int)
    requires Inv(m) && NoOrphans(m) && InRange(m, z)
    ensures Allocated(m, z) <==> exists l :: Owns(m, l, z)
    ensures forall l, r :: Owns(m, l, z) && Owns(m, r, z) ==> l == r
  {
    assert !Orphan(m, z);
    forall l, r | Owns(m, l, z) && Owns(m, r, z)
      ensures l == r
    {
      assert Coincide(m, l, r);
    }
  }

  /** _bmap is injective on mapped blocks, across all files. */
  lemma BmapInjective(m: Fs, ino: int, n: int, jno: int, k: int)
    requires Inv(m) && 0 <= ino < |m.inode| && 0 <= jno < |m.inode| && 0 <= n < MAX_BLOCKS && 0 <= k < MAX_BLOCKS
    ensures BlockModel.Valid(m, BlockLoc(ino, n)) && BlockModel.Valid(m, BlockLoc(jno, k))
    ensures ZoneAt(m, BlockLoc(ino, n)) == ZoneAt(m, BlockLoc(jno, k)) != 0 ==> ino == jno && n == k
  {
    BlockLocValid(m, ino, n);
    BlockLocValid(m, jno, k);
    if ZoneAt(m, BlockLoc(ino, n)) == ZoneAt(m, BlockLoc(jno, k)) != 0 {
      assert Coincide(m, BlockLoc(ino, n), BlockLoc(jno, k));
      BlockLocInjective(ino, n, jno, k);
    }
  }
}
