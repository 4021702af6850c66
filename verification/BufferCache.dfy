/** The buffer cache (fs/buffer.c over kernel/blk_drv/ll_rw_blk.c and blk.h) as a
    state machine.  The kernel is not preemptive, so a step runs from one sleep point
    of getblk, get_hash_table, bread, sync_dev or make_request to the next; between
    steps any other task, or the disk interrupt, may run.

    An agent is one call of getblk or get_hash_table together with the hold it ends
    in; a task holding several buffers is several agents. */
module BufferCache {
  import opened Counting

  type Key = (int, int)

  datatype Cmd = READ | WRITE

  /** A locked buffer waits for a free request slot or sits in the request queue. */
  datatype Io = Unlocked | WaitSlot(cmd: Cmd) | Queued(cmd: Cmd)

  datatype Buf = Buf(dev: int, block: int, uptodate: bool, dirty: bool, count: nat, io: Io, data: int)

  datatype Agent =
    | Idle
    | Hash(dev: int, block: int, b: int)  // get_hash_table, counted, waiting for the unlock
    | AllBusy(dev: int, block: int)       // asleep on buffer_wait
    | Pick(dev: int, block: int, b: int)  // waiting for a victim's unlock
    | Sync(dev: int, block: int, b: int)  // in sync_dev for a dirty victim
    | Held(dev: int, block: int, b: int)

  datatype State = State(buf: seq<Buf>, agent: seq<Agent>, disk: map<Key, int>)

  function DiskAt(s: State, k: Key): int {
    if k in s.disk then s.disk[k] else 0
  }

  predicate Has(s: State, b: int, k: Key) {
    0 <= b < |s.buf| && (s.buf[b].dev, s.buf[b].block) == k
  }

  predicate Counts(p: Agent, b: int) {
    (p.Hash? || p.Held?) && p.b == b
  }

  ghost function Holders(s: State, b: int): set<int> {
    set a: int | 0 <= a < |s.agent| && Counts(s.agent[a], b)
  }

  // ---- the invariant ----

  /** No two buffers stand for the same block. */
  ghost predicate Unique(s: State) {
    forall b, c, k :: Has(s, b, k) && Has(s, c, k) && k.0 != 0 ==> b == c
  }

  ghost predicate CountsExact(s: State) {
    forall b :: 0 <= b < |s.buf| ==> s.buf[b].count == |Holders(s, b)|
  }

  /** A counted buffer is the one its agent asked for. */
  ghost predicate Identity(s: State) {
    forall a :: 0 <= a < |s.agent| ==>
      (match s.agent[a]
       case Idle => true
       case AllBusy(dev, _) => dev != 0
       case Hash(dev, block, b) => dev != 0 && Has(s, b, (dev, block))
       case Held(dev, block, b) => dev != 0 && Has(s, b, (dev, block))
       case Pick(dev, _, b) => dev != 0 && 0 <= b < |s.buf|
       case Sync(dev, _, b) => dev != 0 && 0 <= b < |s.buf|)
  }

  predicate BufOk(x: Buf, onDisk: int) {
    && (x.dirty ==> x.uptodate)
    && (x.io == WaitSlot(READ) || x.io == Queued(READ) ==> !x.uptodate)
    && (x.io == WaitSlot(WRITE) ==> x.dirty)
    && (x.io == Queued(WRITE) ==> x.uptodate)
    && (x.uptodate && !x.dirty && x.io != Queued(WRITE) ==> x.data == onDisk)
    && (x.dev == 0 ==> !x.uptodate && x.io == Unlocked)
  }

  ghost predicate BufsOk(s: State) {
    forall b :: 0 <= b < |s.buf| ==> BufOk(s.buf[b], DiskAt(s, (s.buf[b].dev, s.buf[b].block)))
  }

  ghost predicate Inv(s: State) {
    Unique(s) && CountsExact(s) && Identity(s) && BufsOk(s)
  }

  /** What a client sees of a block: the cached data if up to date, else the disk. */
  ghost function View(s: State, k: Key): int {
    if b :| Has(s, b, k) && s.buf[b].uptodate then s.buf[b].data else DiskAt(s, k)
  }

  // ---- the pieces of a step ----

  function SetAgent(s: State, a: int, p: Agent): State
    requires 0 <= a < |s.agent|
  {
    s.(agent := s.agent[a := p])
  }

  function SetBuf(s: State, b: int, x: Buf): State
    requires 0 <= b < |s.buf|
  {
    s.(buf := s.buf[b := x])
  }

  /** find_buffer: the buffer for a block, or -1 (BufferQueues does it by hash chain). */
  function Find(s: State, k: Key): (b: int)
    ensures b == -1 || Has(s, b, k)
    ensures b == -1 ==> forall c :: !Has(s, c, k)
  {
    FindBelow(s, k, |s.buf|)
  }

  function FindBelow(s: State, k: Key, n: nat): (b: int)
    requires n <= |s.buf|
    ensures b == -1 || Has(s, b, k)
    ensures b == -1 ==> forall c :: 0 <= c < n ==> !Has(s, c, k)
  {
    if n == 0 then -1 else if Has(s, n - 1, k) then n - 1 else FindBelow(s, k, n - 1)
  }

  function Badness(x: Buf): int {
    (if x.dirty then 2 else 0) + (if x.io.Unlocked? then 0 else 1)
  }

  /** A free buffer of minimal badness, as the scan of the ring finds one. */
  predicate IsVictim(s: State, v: int) {
    && 0 <= v < |s.buf| && s.buf[v].count == 0
    && forall c :: 0 <= c < |s.buf| && s.buf[c].count == 0 ==> Badness(s.buf[v]) <= Badness(s.buf[c])
  }

  /** get_hash_table on a cached block, up to its first sleep. */
  function Grab(s: State, a: int, dev: int, block: int, f: int): State
    requires 0 <= a < |s.agent| && 0 <= f < |s.buf|
  {
    var x := s.buf[f];
    SetAgent(SetBuf(s, f, x.(count := x.count + 1)), a,
             if x.io.Unlocked? then Held(dev, block, f) else Hash(dev, block, f))
  }

  /** The last lines of getblk: the free, unlocked, clean buffer gets a new identity. */
  function Retarget(s: State, a: int, dev: int, block: int, b: int): State
    requires 0 <= a < |s.agent| && 0 <= b < |s.buf|
  {
    var x := s.buf[b];
    SetAgent(SetBuf(s, b, Buf(dev, block, false, false, 1, x.io, x.data)), a, Held(dev, block, b))
  }

  /** getblk from the label `repeat` to its first sleep; `v` is the ring scan's choice. */
  function Attempt(s: State, a: int, dev: int, block: int, v: int): State
    requires 0 <= a < |s.agent|
  {
    var f := Find(s, (dev, block));
    if f >= 0 then Grab(s, a, dev, block, f)
    else if forall c :: 0 <= c < |s.buf| ==> s.buf[c].count > 0 then SetAgent(s, a, AllBusy(dev, block))
    else if !IsVictim(s, v) then s
    else if !s.buf[v].io.Unlocked? then SetAgent(s, a, Pick(dev, block, v))
    else if s.buf[v].dirty then SetAgent(s, a, Sync(dev, block, v))
    else Retarget(s, a, dev, block, v)
  }

  /** getblk after a wait for buffer b, which is now unlocked (fs/buffer.c:238-259). */
  function AfterWait(s: State, a: int, dev: int, block: int, b: int, v: int): State
    requires 0 <= a < |s.agent| && 0 <= b < |s.buf|
  {
    if s.buf[b].count > 0 then Attempt(s, a, dev, block, v)
    else if s.buf[b].dirty then SetAgent(s, a, Sync(dev, block, b))
    else if Find(s, (dev, block)) >= 0 then Attempt(s, a, dev, block, v)
    else Retarget(s, a, dev, block, b)
  }

  datatype Act =
    | GetBlk(a: int, dev: int, block: int, v: int)
    | Lookup(a: int, dev: int, block: int)        // get_hash_table called on its own
    | Wake(a: int, v: int)                        // the sleeping agent runs again
    | Release(a: int)                             // brelse
    | Write(a: int, data: int)                    // a client changes an up-to-date buffer
    | Fill(a: int, data: int)                     // ... or overwrites all of it (new_block)
    | Discard(a: int)                             // free_block
    | StartRead(a: int)                           // bread: ll_rw_block(READ)
    | StartWrite(b: int)                          // sync_dev, sys_sync: ll_rw_block(WRITE)
    | Enqueue(b: int)                             // make_request found a slot; add_request
    | Complete(b: int, ok: bool)                  // the disk interrupt: end_request

  predicate HeldBy(s: State, a: int) {
    0 <= a < |s.agent| && s.agent[a].Held? && 0 <= s.agent[a].b < |s.buf|
  }

  /** One step; an act whose conditions do not hold changes nothing. */
  function Step(s: State, act: Act): State {
    match act
    case GetBlk(a, dev, block, v) =>
      if 0 <= a < |s.agent| && s.agent[a].Idle? && dev != 0 then Attempt(s, a, dev, block, v) else s
    case Lookup(a, dev, block) =>
      var f := Find(s, (dev, block));
      if 0 <= a < |s.agent| && s.agent[a].Idle? && dev != 0 && f >= 0 then Grab(s, a, dev, block, f) else s
    case Wake(a, v) => if 0 <= a < |s.agent| then Woken(s, a, v) else s
    case Release(a) =>
      if HeldBy(s, a) && s.buf[s.agent[a].b].io.Unlocked? && s.buf[s.agent[a].b].count > 0 then
        var x := s.buf[s.agent[a].b];
        SetAgent(SetBuf(s, s.agent[a].b, x.(count := x.count - 1)), a, Idle)
      else s
    case Write(a, data) =>
      if HeldBy(s, a) && s.buf[s.agent[a].b].uptodate then
        SetBuf(s, s.agent[a].b, s.buf[s.agent[a].b].(data := data, dirty := true))
      else s
    case Fill(a, data) =>
      if HeldBy(s, a) && s.buf[s.agent[a].b].io != WaitSlot(READ) && s.buf[s.agent[a].b].io != Queued(READ) then
        SetBuf(s, s.agent[a].b, s.buf[s.agent[a].b].(data := data, dirty := true, uptodate := true))
      else s
    case Discard(a) =>
      if HeldBy(s, a) && s.buf[s.agent[a].b].io.Unlocked? && s.buf[s.agent[a].b].count == 1 then
        SetBuf(s, s.agent[a].b, s.buf[s.agent[a].b].(dirty := false, uptodate := false))
      else s
    case StartRead(a) =>
      if HeldBy(s, a) && s.buf[s.agent[a].b].io.Unlocked? && !s.buf[s.agent[a].b].uptodate then
        SetBuf(s, s.agent[a].b, s.buf[s.agent[a].b].(io := WaitSlot(READ)))
      else s
    case StartWrite(b) =>
      if 0 <= b < |s.buf| && s.buf[b].io.Unlocked? && s.buf[b].dirty then
        SetBuf(s, b, s.buf[b].(io := WaitSlot(WRITE)))
      else s
    case Enqueue(b) =>
      if 0 <= b < |s.buf| && s.buf[b].io.WaitSlot? then
        SetBuf(s, b, s.buf[b].(io := Queued(s.buf[b].io.cmd), dirty := false))
      else s
    case Complete(b, ok) =>
      if 0 <= b < |s.buf| && s.buf[b].io.Queued? then EndRequest(s, b, ok) else s
  }

  /** end_request, with the transfer it completes. */
  function EndRequest(s: State, b: int, ok: bool): State
    requires 0 <= b < |s.buf| && s.buf[b].io.Queued?
  {
    var x := s.buf[b];
    var k := (x.dev, x.block);
    if !ok then SetBuf(s, b, x.(uptodate := false, io := Unlocked))
    else if x.io.cmd == READ then SetBuf(s, b, x.(data := DiskAt(s, k), uptodate := true, io := Unlocked))
    else State(s.buf[b := x.(uptodate := true, io := Unlocked)], s.agent, s.disk[k := x.data])
  }

  /** An agent that slept goes on. */
  function Woken(s: State, a: int, v: int): State
    requires 0 <= a < |s.agent|
  {
    match s.agent[a]
    case Idle => s
    case Held(_, _, _) => s
    case AllBusy(dev, block) => Attempt(s, a, dev, block, v)
    case Hash(dev, block, b) =>
      if !(0 <= b < |s.buf|) || !s.buf[b].io.Unlocked? then s
      else if Has(s, b, (dev, block)) then SetAgent(s, a, Held(dev, block, b))
      else // the recheck of fs/buffer.c:200 failed
        SetAgent(SetBuf(s, b, s.buf[b].(count := if s.buf[b].count > 0 then s.buf[b].count - 1 else 0)), a,
          AllBusy(dev, block))
    case Pick(dev, block, b) =>
      if !(0 <= b < |s.buf|) || !s.buf[b].io.Unlocked? then s else AfterWait(s, a, dev, block, b, v)
    case Sync(dev, block, b) =>
      if !(0 <= b < |s.buf|) || !s.buf[b].io.Unlocked? then s else AfterWait(s, a, dev, block, b, v)
  }

  ghost function Run(s: State, acts: seq<Act>): State
    decreases |acts|
  {
    if acts == [] then s else Step(Run(s, acts[..|acts| - 1]), acts[|acts| - 1])
  }

  // ---- the pieces keep the invariant ----

  lemma HoldersAfter(s: State, a: int, p: Agent, b: int)
    requires 0 <= a < |s.agent|
    ensures Holders(SetAgent(s, a, p), b) == if Counts(p, b) then Holders(s, b) + {a} else Holders(s, b) - {a}
    ensures a in Holders(s, b) <==> Counts(s.agent[a], b)
  {
  }

  lemma SizeWithout(h: set<int>, a: int)
    ensures |h - {a}| == |h| - (if a in h then 1 else 0)
    ensures |h + {a}| == |h| + (if a in h then 0 else 1)
  {
    if a in h {
      assert h + {a} == h;
    } else {
      assert h - {a} == h;
    }
  }

  lemma HolderCount(s: State, a: int, p: Agent, b: int)
    requires 0 <= a < |s.agent|
    ensures |Holders(SetAgent(s, a, p), b)|
      == |Holders(s, b)| - (if Counts(s.agent[a], b) then 1 else 0) + (if Counts(p, b) then 1 else 0)
  {
    HoldersAfter(s, a, p, b);
    hide Holders;
    SizeWithout(Holders(s, b), a);
  }

  ghost predicate AgentOk(s: State, p: Agent) {
    match p
    case Idle => true
    case AllBusy(dev, _) => dev != 0
    case Hash(dev, block, b) => dev != 0 && Has(s, b, (dev, block))
    case Held(dev, block, b) => dev != 0 && Has(s, b, (dev, block))
    case Pick(dev, _, b) => dev != 0 && 0 <= b < |s.buf|
    case Sync(dev, _, b) => dev != 0 && 0 <= b < |s.buf|
  }

  /** An agent moves on without changing which buffer it counts. */
  lemma MoveKeeps(s: State, a: int, p: Agent)
    requires Inv(s) && 0 <= a < |s.agent| && AgentOk(s, p)
    requires forall b :: Counts(p, b) <==> Counts(s.agent[a], b)
    ensures Inv(SetAgent(s, a, p)) && forall k :: View(SetAgent(s, a, p), k) == View(s, k)
  {
    var r := SetAgent(s, a, p);
    forall b | 0 <= b < |s.buf|
      ensures r.buf[b].count == |Holders(r, b)|
    {
      HolderCount(s, a, p, b);
    }
    SameKeys(s, r);
    SameView(s, r);
  }

  lemma SameKeys(s: State, r: State)
    requires |r.buf| == |s.buf| && forall b ::
      0 <= b < |s.buf| ==> r.buf[b].dev == s.buf[b].dev && r.buf[b].block == s.buf[b].block
    ensures forall b, k :: Has(r, b, k) <==> Has(s, b, k)
    ensures Unique(s) ==> Unique(r)
  {
    assert forall b, k :: Has(r, b, k) <==> Has(s, b, k);
  }

  lemma SameView(s: State, r: State)
    requires Unique(s) && |r.buf| == |s.buf| && r.disk == s.disk
    requires forall b :: 0 <= b < |s.buf| ==> r.buf[b].dev == s.buf[b].dev && r.buf[b].block == s.buf[b].block
    requires forall b :: 0 <= b < |s.buf| ==> r.buf[b].uptodate == s.buf[b].uptodate && r.buf[b].data == s.buf[b].data
    requires BufsOk(s)
    ensures forall k :: View(r, k) == View(s, k)
  {
    SameKeys(s, r);
    forall k
      ensures View(r, k) == View(s, k)
    {
      ViewIs(s, k);
      ViewIs(r, k);
    }
  }

  /** View does not depend on the choice of buffer. */
  lemma ViewIs(s: State, k: Key)
    requires Unique(s) && (forall b :: 0 <= b < |s.buf| && s.buf[b].dev == 0 ==> !s.buf[b].uptodate)
    ensures forall b :: Has(s, b, k) && s.buf[b].uptodate ==> View(s, k) == s.buf[b].data
    ensures (forall b :: Has(s, b, k) ==> !s.buf[b].uptodate) ==> View(s, k) == DiskAt(s, k)
  {
  }

  /** Agents stay right as long as no counted buffer changes identity. */
  lemma IdentityStays(s: State, r: State)
    requires Identity(s) && r.agent == s.agent && |r.buf| == |s.buf|
    requires forall b :: 0 <= b < |s.buf| ==> r.buf[b].dev == s.buf[b].dev && r.buf[b].block == s.buf[b].block
    ensures Identity(r)
  {
    SameKeys(s, r);
  }

  /** A buffer changes its flags or data, not its key or count. */
  lemma BufKeeps(s: State, r: State, b: int, x: Buf)
    requires Inv(s) && 0 <= b < |s.buf| && r.buf == s.buf[b := x] && r.agent == s.agent
    requires x.dev == s.buf[b].dev && x.block == s.buf[b].block && x.count == s.buf[b].count
    requires BufOk(x, DiskAt(r, (x.dev, x.block)))
    requires r.disk == s.disk || (x.dev != 0 && r.disk == s.disk[(x.dev, x.block) := x.data])
    ensures Inv(r)
    ensures forall k :: k != (x.dev, x.block) ==> View(r, k) == View(s, k)
    ensures View(r, (x.dev, x.block)) == if x.uptodate then x.data else DiskAt(r, (x.dev, x.block))
  {
    SameKeys(s, r);
    IdentityStays(s, r);
    forall c | 0 <= c < |r.buf|
      ensures r.buf[c].count == |Holders(r, c)|
      ensures BufOk(r.buf[c], DiskAt(r, (r.buf[c].dev, r.buf[c].block)))
    {
      assert Holders(r, c) == Holders(s, c);
      if c != b && r.disk != s.disk && (s.buf[c].dev, s.buf[c].block) == (x.dev, x.block) {
        assert Has(s, c, (x.dev, x.block)) && Has(s, b, (x.dev, x.block));
      }
    }
    BufView(s, r, b, x);
  }

  lemma BufView(s: State, r: State, b: int, x: Buf)
    requires Unique(s) && BufsOk(s) && Unique(r) && BufsOk(r) && 0 <= b < |s.buf| && r.buf == s.buf[b := x]
    requires x.dev == s.buf[b].dev && x.block == s.buf[b].block
    requires r.disk == s.disk || (x.dev != 0 && r.disk == s.disk[(x.dev, x.block) := x.data])
    ensures forall k :: k != (x.dev, x.block) ==> View(r, k) == View(s, k)
    ensures View(r, (x.dev, x.block)) == if x.uptodate then x.data else DiskAt(r, (x.dev, x.block))
  {
    forall k
      ensures k != (x.dev, x.block) ==> View(r, k) == View(s, k)
    {
      ViewIs(s, k);
      ViewIs(r, k);
      if k != (x.dev, x.block) {
        assert forall c :: Has(r, c, k) <==> Has(s, c, k) && c != b;
        if c :| Has(s, c, k) && s.buf[c].uptodate {
          assert Has(r, c, k);
        }
      }
    }
    var k := (x.dev, x.block);
    ViewIs(r, k);
    assert Has(r, b, k);
    if !x.uptodate {
      forall c | Has(r, c, k)
        ensures !r.buf[c].uptodate
      {
        if x.dev != 0 {
          assert c == b;
        }
      }
    }
  }

  lemma GrabKeeps(s: State, a: int, dev: int, block: int, f: int)
    requires Inv(s) && 0 <= a < |s.agent| && Has(s, f, (dev, block)) && dev != 0
    requires !s.agent[a].Hash? && !s.agent[a].Held?
    ensures Inv(Grab(s, a, dev, block, f)) && forall k :: View(Grab(s, a, dev, block, f), k) == View(s, k)
  {
    var r := Grab(s, a, dev, block, f);
    SameKeys(s, r);
    forall c | 0 <= c < |r.buf|
      ensures r.buf[c].count == |Holders(r, c)|
    {
      HolderCount(s, a, r.agent[a], c);
      assert Holders(r, c) == Holders(SetAgent(s, a, r.agent[a]), c);
    }
    SameView(s, r);
  }

  lemma ReleaseKeeps(s: State, a: int)
    requires Inv(s) && HeldBy(s, a) && s.buf[s.agent[a].b].count > 0
    ensures var x := s.buf[s.agent[a].b];
      var r := SetAgent(SetBuf(s, s.agent[a].b, x.(count := x.count - 1)), a, Idle);
      Inv(r) && forall k :: View(r, k) == View(s, k)
  {
    var x := s.buf[s.agent[a].b];
    var r := SetAgent(SetBuf(s, s.agent[a].b, x.(count := x.count - 1)), a, Idle);
    SameKeys(s, r);
    forall c | 0 <= c < |r.buf|
      ensures r.buf[c].count == |Holders(r, c)|
    {
      HolderCount(s, a, Idle, c);
      assert Holders(r, c) == Holders(SetAgent(s, a, Idle), c);
    }
    SameView(s, r);
  }

  /** Evicting a free, unlocked, clean buffer loses nothing. */
  lemma RetargetKeeps(s: State, a: int, dev: int, block: int, b: int)
    requires Inv(s) && 0 <= a < |s.agent| && 0 <= b < |s.buf| && dev != 0
    requires !s.agent[a].Hash? && !s.agent[a].Held?
    requires s.buf[b].count == 0 && s.buf[b].io.Unlocked? && !s.buf[b].dirty
    requires forall c :: !Has(s, c, (dev, block))
    ensures Inv(Retarget(s, a, dev, block, b)) && forall k :: View(Retarget(s, a, dev, block, b), k) == View(s, k)
  {
    var r := Retarget(s, a, dev, block, b);
    assert forall c, k :: Has(r, c, k) <==> if c == b then k == (dev, block) else Has(s, c, k);
    forall c | 0 <= c < |r.buf|
      ensures r.buf[c].count == |Holders(r, c)|
    {
      HolderCount(s, a, r.agent[a], c);
      assert Holders(r, c) == Holders(SetAgent(s, a, r.agent[a]), c);
    }
    RetargetIdentity(s, a, dev, block, b);
    forall k
      ensures View(r, k) == View(s, k)
    {
      ViewIs(s, k);
      ViewIs(r, k);
      assert Has(s, b, k) && k.0 != 0 ==> forall c :: Has(s, c, k) ==> c == b;
      if c :| Has(s, c, k) && s.buf[c].uptodate {
        assert c == b || Has(r, c, k);
      }
    }
  }

  lemma RetargetIdentity(s: State, a: int, dev: int, block: int, b: int)
    requires Inv(s) && 0 <= a < |s.agent| && 0 <= b < |s.buf| && dev != 0 && s.buf[b].count == 0
    ensures Identity(Retarget(s, a, dev, block, b))
  {
    var r := Retarget(s, a, dev, block, b);
    assert Holders(s, b) == {};
    forall e | 0 <= e < |r.agent| && e != a
      ensures !Counts(r.agent[e], b)
    {
      assert e !in Holders(s, b);
    }
  }

  lemma AttemptKeeps(s: State, a: int, dev: int, block: int, v: int)
    requires Inv(s) && 0 <= a < |s.agent| && dev != 0 && !s.agent[a].Hash? && !s.agent[a].Held?
    ensures Inv(Attempt(s, a, dev, block, v)) && forall k :: View(Attempt(s, a, dev, block, v), k) == View(s, k)
  {
    hide Inv, View, Grab, Retarget, SetAgent;
    var f := Find(s, (dev, block));
    if f >= 0 {
      GrabKeeps(s, a, dev, block, f);
    } else if forall c :: 0 <= c < |s.buf| ==> s.buf[c].count > 0 {
      MoveKeeps(s, a, AllBusy(dev, block));
    } else if IsVictim(s, v) {
      if !s.buf[v].io.Unlocked? {
        MoveKeeps(s, a, Pick(dev, block, v));
      } else if s.buf[v].dirty {
        MoveKeeps(s, a, Sync(dev, block, v));
      } else {
        RetargetKeeps(s, a, dev, block, v);
      }
    }
  }

  lemma AfterWaitKeeps(s: State, a: int, dev: int, block: int, b: int, v: int)
    requires Inv(s) && 0 <= a < |s.agent| && dev != 0 && !s.agent[a].Hash? && !s.agent[a].Held?
    requires 0 <= b < |s.buf| && s.buf[b].io.Unlocked?
    ensures Inv(AfterWait(s, a, dev, block, b, v)) && forall k ::
      View(AfterWait(s, a, dev, block, b, v), k) == View(s, k)
  {
    hide Inv, View, Attempt, Retarget, SetAgent;
    if s.buf[b].count > 0 {
      AttemptKeeps(s, a, dev, block, v);
    } else if s.buf[b].dirty {
      MoveKeeps(s, a, Sync(dev, block, b));
    } else if Find(s, (dev, block)) >= 0 {
      AttemptKeeps(s, a, dev, block, v);
    } else {
      RetargetKeeps(s, a, dev, block, b);
    }
  }

  /** The recheck after the wait in get_hash_table always succeeds. */
  lemma RecheckSucceeds(s: State, a: int)
    requires Inv(s) && 0 <= a < |s.agent| && s.agent[a].Hash?
    ensures Has(s, s.agent[a].b, (s.agent[a].dev, s.agent[a].block))
  {
  }

  lemma WokenKeeps(s: State, a: int, v: int)
    requires Inv(s) && 0 <= a < |s.agent|
    ensures Inv(Woken(s, a, v)) && forall k :: View(Woken(s, a, v), k) == View(s, k)
  {
    hide View, Attempt, AfterWait, SetAgent, Unique, CountsExact, BufsOk;
    match s.agent[a] {
      case Idle =>
      case Held(_, _, _) =>
      case AllBusy(dev, block) =>
        AttemptKeeps(s, a, dev, block, v);
      case Hash(dev, block, b) =>
        RecheckSucceeds(s, a);
        MoveKeeps(s, a, Held(dev, block, b));
      case Pick(dev, block, b) =>
        if s.buf[b].io.Unlocked? {
          AfterWaitKeeps(s, a, dev, block, b, v);
        }
      case Sync(dev, block, b) =>
        if s.buf[b].io.Unlocked? {
          AfterWaitKeeps(s, a, dev, block, b, v);
        }
    }
  }

  // ---- transparency ----

  /** The client's side of a step: which block it sets, and to what. */
  datatype Effect = Nothing | Sets(k: Key, data: int)

  function KeyOf(s: State, b: int): Key
    requires 0 <= b < |s.buf|
  {
    (s.buf[b].dev, s.buf[b].block)
  }

  /** Only client writes set anything; a discarded block falls back to the disk. */
  function ClientEffect(s: State, act: Act): Effect {
    if Step(s, act) == s then Nothing else
    match act
    case Write(a, data) => if HeldBy(s, a) then Sets(KeyOf(s, s.agent[a].b), data) else Nothing
    case Fill(a, data) => if HeldBy(s, a) then Sets(KeyOf(s, s.agent[a].b), data) else Nothing
    case Discard(a) => if HeldBy(s, a) then Sets(KeyOf(s, s.agent[a].b), DiskAt(s, KeyOf(s, s.agent[a].b))) else Nothing
    case _ => Nothing
  }

  ghost function Apply(v: int, k: Key, e: Effect): int {
    if e.Sets? && e.k == k then e.data else v
  }

  /** end_request(0) on a buffer dirtied again while its write was under way leaves
      a dirty buffer that is not up to date. */
  predicate FailureOk(s: State, act: Act) {
    act.Complete? && !act.ok && 0 <= act.b < |s.buf| && s.buf[act.b].io.Queued? ==> !s.buf[act.b].dirty
  }

  lemma FailureBreaks(s: State, b: int)
    requires Inv(s) && 0 <= b < |s.buf| && s.buf[b].io.Queued?
    ensures Inv(Step(s, Complete(b, false))) <==> !s.buf[b].dirty
  {
    hide Unique, CountsExact, Identity;
    var r := Step(s, Complete(b, false));
    if !s.buf[b].dirty {
      BufKeeps(s, r, b, r.buf[b]);
    } else {
      assert !BufOk(r.buf[b], DiskAt(r, (r.buf[b].dev, r.buf[b].block)));
    }
  }

  /** Every step keeps the invariant; and unless it is a failed transfer it changes
      the view exactly as the client asked: eviction, reading, syncing, queueing and
      completion change nothing. */
  lemma StepKeeps(s: State, act: Act)
    requires Inv(s) && FailureOk(s, act)
    ensures Inv(Step(s, act))
    ensures !(act.Complete? && !act.ok) ==> forall k ::
      View(Step(s, act), k) == Apply(View(s, k), k, ClientEffect(s, act))
  {
    hide View, Attempt, Woken, Grab;
    match act {
      case GetBlk(a, dev, block, v) =>
        if 0 <= a < |s.agent| && s.agent[a].Idle? && dev != 0 {
          AttemptKeeps(s, a, dev, block, v);
        }
      case Lookup(a, dev, block) =>
        var f := Find(s, (dev, block));
        if 0 <= a < |s.agent| && s.agent[a].Idle? && dev != 0 && f >= 0 {
          GrabKeeps(s, a, dev, block, f);
        }
      case Wake(a, v) =>
        if 0 <= a < |s.agent| {
          WokenKeeps(s, a, v);
        }
      case Release(a) =>
        if HeldBy(s, a) && s.buf[s.agent[a].b].count > 0 {
          ReleaseKeeps(s, a);
        }
      case _ =>
        FlagStepKeeps(s, act);
    }
  }

  predicate FlagStep(act: Act) {
    act.Write? || act.Fill? || act.Discard? || act.StartRead? || act.StartWrite? || act.Enqueue? || act.Complete?
  }

  /** The buffer a flag-changing act works on. */
  function ActBuf(s: State, act: Act): int
    requires FlagStep(act)
  {
    match act
    case StartWrite(b) => b
    case Enqueue(b) => b
    case Complete(b, _) => b
    case _ => if 0 <= act.a < |s.agent| && s.agent[act.a].Held? then s.agent[act.a].b else -1
  }

  lemma FlagStepKeeps(s: State, act: Act)
    requires Inv(s) && FlagStep(act) && FailureOk(s, act)
    ensures Inv(Step(s, act))
    ensures !(act.Complete? && !act.ok) ==> forall k ::
      View(Step(s, act), k) == Apply(View(s, k), k, ClientEffect(s, act))
  {
    hide View, Unique, CountsExact, Identity;
    var r := Step(s, act);
    if r != s {
      var b := ActBuf(s, act);
      HeldDev(s, act);
      FlagStepBuf(s, act);
      BufKeeps(s, r, b, r.buf[b]);
      OldView(s, b);
    }
  }

  lemma FlagStepBuf(s: State, act: Act)
    requires Inv(s) && FlagStep(act) && FailureOk(s, act) && Step(s, act) != s
    requires 0 <= ActBuf(s, act) < |s.buf|
    ensures var r, b := Step(s, act), ActBuf(s, act);
      && |r.buf| == |s.buf|
      && BufOk(r.buf[b], DiskAt(r, KeyOf(r, b)))
  {
    hide Unique, CountsExact, Identity;
    HeldDev(s, act);
    var r, b := Step(s, act), ActBuf(s, act);
    assert BufOk(s.buf[b], DiskAt(s, KeyOf(s, b)));
    if act.Complete? {
      assert KeyOf(r, b) == KeyOf(s, b);
      assert act.ok && s.buf[b].io.cmd == WRITE ==> KeyOf(s, b) in r.disk && r.disk[KeyOf(s, b)] == s.buf[b].data;
    } else {
      assert r.disk == s.disk;
      if act.Enqueue? {
        assert s.buf[b].io.cmd.READ? || s.buf[b].io.cmd.WRITE?;
      }
    }
  }

  lemma HeldDev(s: State, act: Act)
    requires Inv(s) && FlagStep(act) && Step(s, act) != s
    ensures 0 <= ActBuf(s, act) < |s.buf| && s.buf[ActBuf(s, act)].dev != 0
  {
  }

  lemma OldView(s: State, b: int)
    requires Inv(s) && 0 <= b < |s.buf| && s.buf[b].dev != 0
    ensures View(s, KeyOf(s, b)) == if s.buf[b].uptodate then s.buf[b].data else DiskAt(s, KeyOf(s, b))
  {
    ViewIs(s, KeyOf(s, b));
    assert Has(s, b, KeyOf(s, b));
  }

  /** A transfer that fails loses data exactly when it was a write whose data the
      disk does not have yet. */
  lemma FailedTransfer(s: State, b: int)
    requires Inv(s) && 0 <= b < |s.buf| && s.buf[b].io.Queued? && !s.buf[b].dirty
    ensures (forall k :: View(Step(s, Complete(b, false)), k) == View(s, k))
      <==> (s.buf[b].io.cmd == READ || s.buf[b].data == DiskAt(s, KeyOf(s, b)))
  {
    hide View, Unique, CountsExact, Identity;
    var r := Step(s, Complete(b, false));
    BufKeeps(s, r, b, r.buf[b]);
    OldView(s, b);
  }

  /** Only a free, unlocked, clean buffer is ever given a new identity; so a buffer
      some agent counts keeps its block. */
  lemma IdentityChange(s: State, act: Act, b: int)
    requires Inv(s) && 0 <= b < |s.buf|
    ensures |Step(s, act).buf| == |s.buf|
    ensures KeyOf(Step(s, act), b) != KeyOf(s, b) ==> s.buf[b].count == 0 && s.buf[b].io.Unlocked? && !s.buf[b].dirty
  {
    hide Inv, Find;
    match act {
      case Wake(a, v) =>
        if 0 <= a < |s.agent| {
          WokenIdentity(s, a, v, b);
        }
      case _ =>
    }
  }

  lemma WokenIdentity(s: State, a: int, v: int, b: int)
    requires 0 <= a < |s.agent| && 0 <= b < |s.buf|
    ensures |Woken(s, a, v).buf| == |s.buf|
    ensures KeyOf(Woken(s, a, v), b) != KeyOf(s, b) ==> s.buf[b].count == 0 && s.buf[b].io.Unlocked? && !s.buf[b].dirty
  {
    hide Inv, Find;
  }

  // ---- whole runs ----

  /** No failed transfer of the run hits a buffer dirtied again meanwhile. */
  ghost predicate FailuresOk(s: State, acts: seq<Act>)
    decreases |acts|
  {
    acts == [] || (FailuresOk(s, acts[..|acts| - 1]) && FailureOk(Run(s, acts[..|acts| - 1]), acts[|acts| - 1]))
  }

  /** The last value a client gave block k, or what was there at the start. */
  ghost function LastWritten(s: State, acts: seq<Act>, k: Key): int
    decreases |acts|
  {
    if acts == [] then View(s, k)
    else
      var n := |acts| - 1;
      Apply(LastWritten(s, acts[..n], k), k, ClientEffect(Run(s, acts[..n]), acts[n]))
  }

  /** A failed read, or a failed write of what the disk has already. */
  predicate FailureHarmless(s: State, act: Act) {
    act.Complete? && !act.ok && 0 <= act.b < |s.buf| && s.buf[act.b].io.Queued? ==>
      s.buf[act.b].io.cmd == READ || s.buf[act.b].data == DiskAt(s, KeyOf(s, act.b))
  }

  ghost predicate Harmless(s: State, acts: seq<Act>)
    decreases |acts|
  {
    acts == []
    || (Harmless(s, acts[..|acts| - 1]) && FailureHarmless(Run(s, acts[..|acts| - 1]), acts[|acts| - 1]))
  }

  /** The step changes the view exactly as the client asked. */
  ghost predicate Faithful(s: State, act: Act) {
    forall k :: View(Step(s, act), k) == Apply(View(s, k), k, ClientEffect(s, act))
  }

  lemma StepFaithful(s: State, act: Act)
    requires Inv(s) && FailureOk(s, act)
    ensures Faithful(s, act) <==> FailureHarmless(s, act)
  {
    StepKeeps(s, act);
    hide View, Inv;
    if act.Complete? && !act.ok {
      assert ClientEffect(s, act) == Nothing;
      if 0 <= act.b < |s.buf| && s.buf[act.b].io.Queued? {
        FailedTransfer(s, act.b);
      }
    }
  }

  /** After the run and all its prefixes, every block reads as the last value a client
      wrote to it. */
  ghost predicate Transparent(s: State, acts: seq<Act>)
    decreases |acts|
  {
    && (forall k :: View(Run(s, acts), k) == LastWritten(s, acts, k))
    && (acts == [] || Transparent(s, acts[..|acts| - 1]))
  }

  /** Over every interleaving the invariant holds, and the cache is transparent exactly
      when the disk loses nothing: no write fails whose data it does not have yet. */
  lemma {:induction false} RunTransparent(s: State, acts: seq<Act>)
    requires Inv(s) && FailuresOk(s, acts)
    ensures Inv(Run(s, acts)) && (Transparent(s, acts) <==> Harmless(s, acts))
    decreases |acts|
  {
    hide Inv, View, Step, ClientEffect, FailureOk, FailureHarmless;
    if acts != [] {
      var n := |acts| - 1;
      RunTransparent(s, acts[..n]);
      var m := Run(s, acts[..n]);
      StepKeeps(m, acts[n]);
      StepFaithful(m, acts[n]);
      assert forall k :: LastWritten(s, acts, k) == Apply(LastWritten(s, acts[..n], k), k, ClientEffect(m, acts[n]));
      assert Run(s, acts) == Step(m, acts[n]);
    }
  }

  function FillTwice(dev: int, block: int, first: int, second: int): seq<Act> {
    [GetBlk(0, dev, block, 0), Fill(0, first), StartWrite(0), Enqueue(0), Write(0, second)]
  }

  /** Such a buffer can be reached: a client fills a block, its write is started and
      queued, and the client, who still holds the buffer, writes again. The kernel does
      this with the bitmap blocks, which stay held as long as the disk is mounted. */
  lemma FailureReached(s: State, dev: int, block: int, first: int, second: int)
    requires dev != 0 && s.agent == [Idle] && |s.buf| == 1
    requires s.buf[0] == Buf(0, 0, false, false, 0, Unlocked, s.buf[0].data)
    ensures Inv(s) && Inv(Run(s, FillTwice(dev, block, first, second)))
    ensures Run(s, FillTwice(dev, block, first, second)).buf == [Buf(dev, block, true, true, 1, Queued(WRITE), second)]
    ensures !Inv(Run(s, FillTwice(dev, block, first, second) + [Complete(0, false)]))
  {
    InitInv(s);
    var acts := FillTwice(dev, block, first, second);
    Reached(s, dev, block, first, second);
    RunInv(s, acts, 5);
    assert acts[..5] == acts;
    RunMore(s, acts, Complete(0, false));
    hide Inv, Run;
    FailureBreaks(Run(s, acts), 0);
  }

  lemma Reached(s: State, dev: int, block: int, first: int, second: int)
    requires dev != 0 && s.agent == [Idle] && |s.buf| == 1
    requires s.buf[0] == Buf(0, 0, false, false, 0, Unlocked, s.buf[0].data)
    ensures Run(s, FillTwice(dev, block, first, second))
      == State([Buf(dev, block, true, true, 1, Queued(WRITE), second)], [Held(dev, block, 0)], s.disk)
  {
    var acts := FillTwice(dev, block, first, second);
    assert IsVictim(s, 0) && forall c :: !Has(s, c, (dev, block));
    var held := [Held(dev, block, 0)];
    var r1 := State([Buf(dev, block, false, false, 1, Unlocked, s.buf[0].data)], held, s.disk);
    var r2 := State([Buf(dev, block, true, true, 1, Unlocked, first)], held, s.disk);
    var r3 := State([Buf(dev, block, true, true, 1, WaitSlot(WRITE), first)], held, s.disk);
    var r4 := State([Buf(dev, block, true, false, 1, Queued(WRITE), first)], held, s.disk);
    assert Step(s, acts[0]) == r1;
    assert Step(r1, acts[1]) == r2;
    assert Step(r2, acts[2]) == r3;
    assert Step(r3, acts[3]) == r4;
    assert acts[..1] == [acts[0]] && acts[..2] == acts[..1] + [acts[1]] && acts[..3] == acts[..2] + [acts[2]];
    assert acts[..4] == acts[..3] + [acts[3]] && acts == acts[..4] + [acts[4]];
    hide Step;
    RunMore(s, [], acts[0]);
    assert [] + [acts[0]] == acts[..1];
    RunMore(s, acts[..1], acts[1]);
    RunMore(s, acts[..2], acts[2]);
    RunMore(s, acts[..3], acts[3]);
    RunMore(s, acts[..4], acts[4]);
    LastWrite(r4, second);
  }

  lemma LastWrite(r: State, second: int)
    requires HeldBy(r, 0) && r.agent[0].b == 0 && r.buf[0].uptodate
    ensures Step(r, Write(0, second)) == r.(buf := r.buf[0 := r.buf[0].(data := second, dirty := true)])
  {
  }

  lemma RunMore(s: State, acts: seq<Act>, act: Act)
    ensures Run(s, acts + [act]) == Step(Run(s, acts), act)
  {
    assert (acts + [act])[..|acts|] == acts;
  }

  /** A run without failed transfers keeps the invariant. */
  lemma {:induction false} RunInv(s: State, acts: seq<Act>, n: nat)
    requires Inv(s) && n <= |acts| && forall k :: 0 <= k < |acts| ==> !acts[k].Complete?
    ensures Inv(Run(s, acts[..n]))
  {
    hide Inv, Step;
    if n > 0 {
      RunInv(s, acts, n - 1);
      StepKeeps(Run(s, acts[..n - 1]), acts[n - 1]);
      assert acts[..n][..n - 1] == acts[..n - 1];
    }
  }

  /** What an unlocked, clean, up-to-date buffer holds is on the disk; what any
      up-to-date buffer holds is what clients see. */
  lemma CacheAgrees(s: State, b: int)
    requires Inv(s) && 0 <= b < |s.buf| && s.buf[b].uptodate
    ensures View(s, KeyOf(s, b)) == s.buf[b].data
    ensures s.buf[b].io.Unlocked? && !s.buf[b].dirty ==> DiskAt(s, KeyOf(s, b)) == s.buf[b].data
  {
    OldView(s, b);
  }

  /** Requests in the queue never name the same block: their elevator keys differ. */
  lemma QueuedApart(s: State, b: int, c: int)
    requires Inv(s) && 0 <= b < c < |s.buf| && s.buf[b].io.Queued? && s.buf[c].io.Queued?
    ensures KeyOf(s, b) != KeyOf(s, c)
  {
    if KeyOf(s, b) == KeyOf(s, c) {
      assert Has(s, b, KeyOf(s, b)) && Has(s, c, KeyOf(s, b));
    }
  }

  /** buffer_init: nothing cached, nobody waiting. */
  lemma InitInv(s: State)
    requires forall b :: 0 <= b < |s.buf| ==> s.buf[b] == Buf(0, 0, false, false, 0, Unlocked, s.buf[b].data)
    requires forall a :: 0 <= a < |s.agent| ==> s.agent[a].Idle?
    ensures Inv(s)
  {
    assert forall b :: Holders(s, b) == {};
  }
}
