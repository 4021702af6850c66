/** The sleep inside _bmap (fs/inode.c): new_block sets the bit of a zone, sleeps in
    getblk, and only then is the zone cleared and its number stored, without a second
    look at the place. Steps are interleaved at that sleep. */
module BlockRaces {
  import opened BlockModel

  /** Where a zone number is stored: a slot of an inode or a word of an index block. */
  datatype Place = Slot(ino: int, k: int) | WordOf(p: int, i: int)

  predicate PlaceOk(m: Fs, a: Place) {
    match a
    case Slot(ino, k) => 0 <= ino < |m.inode| && 0 <= k < 9
    case WordOf(p, i) => InRange(m, p) && 0 <= i < ENTRIES
  }

  function PlaceOf(m: Fs, l: Loc): Place
    requires Shape(m) && Valid(m, l)
  {
    match l
    case Top(ino, k) => Slot(ino, k)
    case Mid(_, _, a) => WordOf(ParentZone(m, l), a)
    case Low(_, _, b) => WordOf(ParentZone(m, l), b)
  }

  /** new_block up to its sleep: the bit is set. */
  function Take(m: Fs, z: int): Fs
    requires Shape(m) && InRange(m, z)
  {
    m.(zmap := m.zmap[BitOf(m, z) := true])
  }

  /** After the sleep: the block is cleared and its number stored. */
  function Store(m: Fs, a: Place, z: int): (r: Fs)
    requires Shape(m) && PlaceOk(m, a) && InRange(m, z)
    ensures Shape(r) && r.first == m.first && r.nzones == m.nzones && r.zmap == m.zmap && |r.inode| == |m.inode|
  {
    var d := m.disk[z := ZeroBlock()];
    match a
    case Slot(ino, k) => m.(disk := d, inode := m.inode[ino := m.inode[ino].(zone := m.inode[ino].zone[k := z])])
    case WordOf(p, i) => m.(disk := d[p := SetWord(d[p], i, z)])
  }

  /** A zone's bit is set exactly when one location names it or it is in flight. */
  ghost predicate Exact(m: Fs, flight: set<int>) {
    && Shape(m) && OwnedInRange(m) && OneOwner(m)
    && (forall z :: InRange(m, z) && Allocated(m, z) && z !in flight ==> exists l :: Owns(m, l, z))
    && (forall z :: z in flight ==> InRange(m, z) && Allocated(m, z))
    && (forall l :: Valid(m, l) ==> ZoneAt(m, l) !in flight)
  }

  /** With nothing in flight this is BlockModel's exact ownership. */
  lemma ExactIsInv(m: Fs)
    requires Shape(m)
    ensures Exact(m, {}) <==> OwnedInRange(m) && OneOwner(m) && NoOrphans(m)
  {
    forall z
      ensures Orphan(m, z) <==> InRange(m, z) && Allocated(m, z) && !exists l :: Owns(m, l, z)
    {
    }
  }

  lemma TakeKeeps(m: Fs, flight: set<int>, z: int)
    requires Exact(m, flight) && InRange(m, z) && !Allocated(m, z)
    ensures Exact(Take(m, z), flight + {z})
  {
    var r := Take(m, z);
    assert forall l :: Valid(r, l) <==> Valid(m, l);
    assert forall l :: Valid(m, l) ==> ZoneAt(r, l) == ZoneAt(m, l);
    assert forall y :: InRange(m, y) ==> (Allocated(r, y) <==> y == z || Allocated(m, y));
    forall l, q | Coincide(r, l, q)
      ensures l == q
    {
      assert Coincide(m, l, q);
    }
    forall y | InRange(r, y) && Allocated(r, y) && y !in flight + {z}
      ensures exists l :: Owns(r, l, y)
    {
      var l :| Owns(m, l, y);
      assert Owns(r, l, y);
    }
  }

  /** The place is location r of some file now. */
  ghost predicate Finds(m: Fs, a: Place, r: Loc)
    requires Shape(m)
  {
    Valid(m, r) && PlaceOf(m, r) == a && (!r.Top? ==> ParentZone(m, r) != 0)
  }

  lemma OneFinds(m: Fs, a: Place, r: Loc, q: Loc)
    requires Shape(m) && OwnedInRange(m) && OneOwner(m) && Finds(m, a, r) && Finds(m, a, q)
    ensures r == q
  {
    if !r.Top? && !q.Top? {
      ParentIsOwned(m, r);
      ParentIsOwned(m, q);
      assert Coincide(m, ParentLoc(r), ParentLoc(q));
    }
  }

  /** The place is the index block above q, or above that. */
  ghost predicate Above(m: Fs, a: Place, q: Loc)
    requires Shape(m)
    decreases q.Low?, q.Mid?
  {
    !q.Top? && (Finds(m, a, ParentLoc(q)) || Above(m, a, ParentLoc(q)))
  }

  /** What a store does to every location: those at the place get the zone, those
      reached through the place are lost, the others keep theirs. */
  lemma StoredZone(m: Fs, flight: set<int>, a: Place, z: int, q: Loc)
    requires Exact(m, flight) && z in flight && PlaceOk(m, a) && Valid(m, q)
    ensures Valid(Store(m, a, z), q)
    ensures ZoneAt(Store(m, a, z), q)
      == if Finds(m, a, q) then z else if Above(m, a, q) then 0 else ZoneAt(m, q)
    decreases q.Low?, q.Mid?
  {
    hide Exact, OwnedInRange, OneOwner;
    if !q.Top? {
      InFlight(m, flight, z);
      var m' := Store(m, a, z);
      var i := if q.Mid? then q.a else q.b;
      assert Valid(m, ParentLoc(q));
      StoredZone(m, flight, a, z, ParentLoc(q));
      ParentIsOwned(m, q);
      assert ParentZone(m', q) == ZoneAt(m', ParentLoc(q));
      assert ZoneAt(m', q) == Entry(m', ParentZone(m', q), i);
      StoredEntry(m, a, z, q, i);
    }
  }

  lemma InFlight(m: Fs, flight: set<int>, z: int)
    requires Exact(m, flight) && z in flight
    ensures Shape(m) && OwnedInRange(m) && OneOwner(m) && InRange(m, z) && Allocated(m, z) && Nowhere(m, z)
  {
  }

  ghost predicate Nowhere(m: Fs, z: int)
    requires Shape(m)
  {
    forall l :: Valid(m, l) ==> ZoneAt(m, l) != z
  }

  lemma StoredEntry(m: Fs, a: Place, z: int, q: Loc, i: int)
    requires Shape(m) && OwnedInRange(m) && OneOwner(m) && PlaceOk(m, a) && InRange(m, z) && Nowhere(m, z)
    requires Valid(m, q) && !q.Top? && i == (if q.Mid? then q.a else q.b)
    requires Valid(Store(m, a, z), q) && Valid(m, ParentLoc(q))
    requires ParentZone(Store(m, a, z), q)
      == if Finds(m, a, ParentLoc(q)) then z else if Above(m, a, ParentLoc(q)) then 0 else ZoneAt(m, ParentLoc(q))
    ensures Entry(Store(m, a, z), ParentZone(Store(m, a, z), q), i)
      == if Finds(m, a, q) then z else if Above(m, a, q) then 0 else ZoneAt(m, q)
  {
    var m' := Store(m, a, z);
    ParentIsOwned(m, q);
    FindsOnce(m, a);
    if Finds(m, a, ParentLoc(q)) {
      NotTheBlock(m, a, z, ParentLoc(q));
      assert m'.disk[z] == ZeroBlock();
    } else if !Above(m, a, ParentLoc(q)) {
      var p := ZoneAt(m, ParentLoc(q));
      if InRange(m, p) && a.WordOf? && a.p == p {
        WordAfterSet(m.disk[p], a.i, z, i);
      }
    }
  }

  /** The block that is written to is not the new one if the place is found at all. */
  lemma NotTheBlock(m: Fs, a: Place, z: int, r: Loc)
    requires Shape(m) && Finds(m, a, r) && Nowhere(m, z)
    ensures a.WordOf? ==> a.p != z
  {
    if !r.Top? {
      assert Valid(m, ParentLoc(r)) && ParentZone(m, r) == ZoneAt(m, ParentLoc(r));
    }
  }

  lemma FindsOnce(m: Fs, a: Place)
    requires Shape(m) && OwnedInRange(m) && OneOwner(m)
    ensures forall r, q :: Finds(m, a, r) && Finds(m, a, q) ==> r == q
  {
    forall r, q | Finds(m, a, r) && Finds(m, a, q)
      ensures r == q
    {
      OneFinds(m, a, r, q);
    }
  }

  // ---- a store into an empty place ----

  lemma EmptyAbove(m: Fs, a: Place, r: Loc, q: Loc)
    requires Shape(m) && OwnedInRange(m) && OneOwner(m) && Finds(m, a, r) && ZoneAt(m, r) == 0 && Valid(m, q)
    ensures Above(m, a, q) ==> ZoneAt(m, q) == 0
    decreases q.Low?, q.Mid?
  {
    FindsOnce(m, a);
    if !q.Top? {
      ParentIsOwned(m, q);
      EmptyAbove(m, a, r, ParentLoc(q));
    }
  }

  lemma EmptyStore(m: Fs, flight: set<int>, a: Place, z: int, r: Loc, q: Loc)
    requires Exact(m, flight) && z in flight && PlaceOk(m, a) && Finds(m, a, r) && ZoneAt(m, r) == 0 && Valid(m, q)
    ensures Valid(Store(m, a, z), q) && ZoneAt(Store(m, a, z), q) == if q == r then z else ZoneAt(m, q)
  {
    InFlight(m, flight, z);
    StoredZone(m, flight, a, z, q);
    FindsOnce(m, a);
    EmptyAbove(m, a, r, q);
  }

  lemma EmptyStoreExact(m: Fs, flight: set<int>, a: Place, z: int, r: Loc)
    requires Exact(m, flight) && z in flight && PlaceOk(m, a) && Finds(m, a, r) && ZoneAt(m, r) == 0
    ensures Exact(Store(m, a, z), flight - {z})
  {
    var m' := Store(m, a, z);
    InFlight(m, flight, z);
    assert forall y :: InRange(m', y) ==> Allocated(m', y) == Allocated(m, y);
    forall q | Valid(m', q)
      ensures Valid(m, q) && ZoneAt(m', q) == if q == r then z else ZoneAt(m, q)
    {
      EmptyStore(m, flight, a, z, r, q);
    }
    hide Store, ZoneAt;
    forall q, l | Coincide(m', q, l)
      ensures q == l
    {
      assert q == r || l == r || Coincide(m, q, l);
    }
    forall y | InRange(m', y) && Allocated(m', y) && y !in flight - {z}
      ensures exists l :: Owns(m', l, y)
    {
      if y == z {
        EmptyStore(m, flight, a, z, r, r);
        assert Owns(m', r, z);
      } else {
        assert InRange(m, y) && Allocated(m, y);
        var l :| Owns(m, l, y);
        EmptyStore(m, flight, a, z, r, l);
        assert Owns(m', l, y);
      }
    }
  }

  // ---- a store over something, or into a block nobody reaches ----

  /** The zone that was at the place belongs to nobody any more. */
  lemma FullStore(m: Fs, flight: set<int>, a: Place, z: int, r: Loc, q: Loc)
    requires Exact(m, flight) && z in flight && PlaceOk(m, a) && Finds(m, a, r) && ZoneAt(m, r) != 0
    ensures !Owns(Store(m, a, z), q, ZoneAt(m, r))
  {
    InFlight(m, flight, z);
    if Valid(m, q) {
      StoredZone(m, flight, a, z, q);
      FindsOnce(m, a);
      assert Coincide(m, q, r) ==> q == r;
    }
  }

  lemma LostStore(m: Fs, flight: set<int>, a: Place, z: int, q: Loc)
    requires Exact(m, flight) && z in flight && PlaceOk(m, a) && forall r :: !Finds(m, a, r)
    ensures !Owns(Store(m, a, z), q, z)
  {
    InFlight(m, flight, z);
    if Valid(m, q) {
      StoredZone(m, flight, a, z, q);
    }
  }

  ghost predicate EmptyPlace(m: Fs, a: Place)
    requires Shape(m)
  {
    exists r :: Finds(m, a, r) && ZoneAt(m, r) == 0
  }

  /** A store keeps ownership exact if and only if at that moment, after the sleep, the
      place is still some file's and still holds 0. */
  lemma StoreKeepsIff(m: Fs, flight: set<int>, a: Place, z: int)
    requires Exact(m, flight) && z in flight && PlaceOk(m, a)
    ensures InRange(m, z) && (Exact(Store(m, a, z), flight - {z}) <==> EmptyPlace(m, a))
  {
    InFlight(m, flight, z);
    var m' := Store(m, a, z);
    if r :| Finds(m, a, r) && ZoneAt(m, r) == 0 {
      EmptyStoreExact(m, flight, a, z, r);
    } else if r :| Finds(m, a, r) {
      var y := ZoneAt(m, r);
      forall q
        ensures !Owns(m', q, y)
      {
        FullStore(m, flight, a, z, r, q);
      }
      Orphaned(m, m', flight, y, z);
    } else {
      forall q
        ensures !Owns(m', q, z)
      {
        LostStore(m, flight, a, z, q);
      }
      Orphaned(m, m', flight, z, z);
    }
  }

  lemma Orphaned(m: Fs, m': Fs, flight: set<int>, y: int, z: int)
    requires Shape(m) && Shape(m') && m'.first == m.first && m'.nzones == m.nzones && m'.zmap == m.zmap
    requires InRange(m, y) && Allocated(m, y) && y !in flight - {z} && forall q :: !Owns(m', q, y)
    ensures !Exact(m', flight - {z})
  {
  }

  /** And then no file changes a byte: the new block reads as the hole it replaces. */
  lemma EmptyStoreByte(m: Fs, flight: set<int>, a: Place, z: int, ino: int, p: int)
    requires Exact(m, flight) && z in flight && PlaceOk(m, a) && EmptyPlace(m, a)
    requires 0 <= ino < |m.inode| && 0 <= p < MAX_BYTES
    ensures InRange(m, z) && ByteAt(Store(m, a, z), ino, p) == ByteAt(m, ino, p)
  {
    InFlight(m, flight, z);
    var r :| Finds(m, a, r) && ZoneAt(m, r) == 0;
    var q := BlockLoc(ino, p / BLOCK_SIZE);
    BlockLocValid(m, ino, p / BLOCK_SIZE);
    EmptyStore(m, flight, a, z, r, q);
    NotTheBlock(m, a, z, r);
    if !r.Top? {
      ParentIsOwned(m, r);
      assert !Coincide(m, q, ParentLoc(r));
    }
  }

  /** Undisturbed, the two halves make BlockModel's Attach. */
  lemma Undisturbed(m: Fs, l: Loc, z: int)
    requires CanAttach(m, l, z) && OwnedInRange(m)
    ensures !l.Top? ==> InRange(m, ParentZone(m, l))
    ensures Store(Take(m, z), PlaceOf(m, l), z) == Attach(m, l, z)
  {
    AttachShape(m, l, z);
  }

  // ---- whole runs ----

  datatype Event = Begin(z: int) | End(a: Place, z: int)

  /** New_block takes a free zone; a store uses one taken before. */
  ghost predicate Enabled(m: Fs, flight: set<int>, e: Event)
    requires Shape(m)
  {
    match e
    case Begin(z) => InRange(m, z) && !Allocated(m, z)
    case End(a, z) => PlaceOk(m, a) && InRange(m, z) && z in flight
  }

  datatype State = State(m: Fs, flight: set<int>)

  ghost function After(s: State, e: Event): (r: State)
    requires Shape(s.m)
    ensures Shape(r.m)
  {
    if !Enabled(s.m, s.flight, e) then s else
    match e
    case Begin(z) => State(Take(s.m, z), s.flight + {z})
    case End(a, z) => State(Store(s.m, a, z), s.flight - {z})
  }

  ghost function Run(s: State, events: seq<Event>): (r: State)
    requires Shape(s.m)
    ensures Shape(r.m)
  {
    if events == [] then s else After(Run(s, events[..|events| - 1]), events[|events| - 1])
  }

  /** Every store of the run finds its place empty. */
  ghost predicate Careful(s: State, events: seq<Event>)
    requires Shape(s.m)
  {
    events == [] ||
      var n := |events| - 1;
      var t := Run(s, events[..n]);
      Careful(s, events[..n])
      && (events[n].End? && Enabled(t.m, t.flight, events[n]) ==> EmptyPlace(t.m, events[n].a))
  }

  ghost predicate ExactThroughout(s: State, events: seq<Event>)
    requires Shape(s.m)
  {
    && Exact(Run(s, events).m, Run(s, events).flight)
    && (events == [] || ExactThroughout(s, events[..|events| - 1]))
  }

  lemma OneEvent(t: State, e: Event)
    requires Shape(t.m) && Exact(t.m, t.flight)
    ensures Exact(After(t, e).m, After(t, e).flight)
      <==> (e.End? && Enabled(t.m, t.flight, e) ==> EmptyPlace(t.m, e.a))
  {
    hide Exact, EmptyPlace, Take, Store;
    if Enabled(t.m, t.flight, e) {
      match e
      case Begin(z) => TakeKeeps(t.m, t.flight, z);
      case End(a, z) => StoreKeepsIff(t.m, t.flight, a, z);
    }
  }

  /** Over any interleaving of creates, ownership is exact after every step if and only
      if every store found its place still empty. */
  lemma {:induction false} ExactRuns(s: State, events: seq<Event>)
    requires Shape(s.m) && Exact(s.m, s.flight)
    ensures ExactThroughout(s, events) <==> Careful(s, events)
    decreases |events|
  {
    hide Exact, EmptyPlace, After, Enabled;
    if events != [] {
      var n := |events| - 1;
      ExactRuns(s, events[..n]);
      var t := Run(s, events[..n]);
      if Exact(t.m, t.flight) {
        OneEvent(t, events[n]);
      }
      assert ExactThroughout(s, events[..n]) ==> Exact(t.m, t.flight);
    }
  }

  /** The failing input: two tasks write to the same hole of one file. Both find the
      place empty and sleep; the second store drops the first one's zone, whose bit
      stays set for ever. */
  lemma OverlappingCreates(m: Fs, l: Loc, z1: int, z2: int)
    requires Shape(m) && OwnedInRange(m) && OneOwner(m) && NoOrphans(m)
    requires CanAttach(m, l, z1) && CanAttach(m, l, z2) && z1 != z2
    ensures PlaceOk(m, PlaceOf(m, l))
    ensures var r := Store(Store(Take(Take(m, z1), z2), PlaceOf(m, l), z1), PlaceOf(m, l), z2);
      !NoOrphans(r) && Valid(r, l) && ZoneAt(r, l) == z2 && Allocated(r, z1) && forall q :: !Owns(r, q, z1)
  {
    if !l.Top? {
      ParentIsOwned(m, l);
    }
    var a := PlaceOf(m, l);
    BothTaken(m, l, z1, z2);
    hide Exact, Finds, Take, PlaceOf, ZoneAt, OwnedInRange, OneOwner;
    SecondStore(Take(Take(m, z1), z2), {z1, z2}, a, l, z1, z2);
  }

  lemma BothTaken(m: Fs, l: Loc, z1: int, z2: int)
    requires Shape(m) && OwnedInRange(m) && OneOwner(m) && NoOrphans(m)
    requires CanAttach(m, l, z1) && CanAttach(m, l, z2) && z1 != z2
    ensures var t := Take(Take(m, z1), z2);
      Exact(t, {z1, z2}) && PlaceOk(t, PlaceOf(m, l)) && Finds(t, PlaceOf(m, l), l) && ZoneAt(t, l) == 0
  {
    ExactIsInv(m);
    if !l.Top? {
      ParentIsOwned(m, l);
    }
    StillFree(m, z1, z2);
    TakenFinds(m, l, z1);
    var t := Take(m, z1);
    hide Exact, OwnedInRange, OneOwner, NoOrphans, ZoneAt, Take;
    TakeKeeps(m, {}, z1);
    TakeKeeps(t, {} + {z1}, z2);
    assert {} + {z1} + {z2} == {z1, z2};
    TakenFinds(t, l, z2);
  }

  lemma StillFree(m: Fs, z1: int, z2: int)
    requires Shape(m) && InRange(m, z1) && InRange(m, z2) && z1 != z2 && !Allocated(m, z2)
    ensures Shape(Take(m, z1)) && InRange(Take(m, z1), z2) && !Allocated(Take(m, z1), z2)
  {
  }

  lemma SecondStore(t: Fs, flight: set<int>, a: Place, l: Loc, z1: int, z2: int)
    requires Exact(t, flight) && z1 in flight && z2 in flight && z1 != z2
    requires PlaceOk(t, a) && Finds(t, a, l) && ZoneAt(t, l) == 0
    ensures InRange(t, z1) && InRange(t, z2)
    ensures var r := Store(Store(t, a, z1), a, z2);
      !NoOrphans(r) && Valid(r, l) && ZoneAt(r, l) == z2 && Allocated(r, z1) && forall q :: !Owns(r, q, z1)
  {
    InFlight(t, flight, z1);
    InFlight(t, flight, z2);
    var u := Store(t, a, z1);
    EmptyStoreExact(t, flight, a, z1, l);
    StoredFinds(t, flight, a, z1, l);
    EmptyStore(t, flight, a, z1, l, l);
    hide Exact, Finds, Store, ZoneAt;
    StoredZone(u, flight - {z1}, a, z2, l);
    forall q
      ensures !Owns(Store(u, a, z2), q, z1)
    {
      FullStore(u, flight - {z1}, a, z2, l, q);
    }
    assert Orphan(Store(u, a, z2), z1);
  }

  lemma TakenFinds(m: Fs, l: Loc, z: int)
    requires Shape(m) && InRange(m, z) && Valid(m, l) && (!l.Top? ==> ParentZone(m, l) != 0)
    ensures Finds(Take(m, z), PlaceOf(m, l), l) && ZoneAt(Take(m, z), l) == ZoneAt(m, l)
    ensures PlaceOf(Take(m, z), l) == PlaceOf(m, l)
  {
  }

  /** The place of a location does not move when something is stored there. */
  lemma StoredFinds(m: Fs, flight: set<int>, a: Place, z: int, l: Loc)
    requires Exact(m, flight) && z in flight && PlaceOk(m, a) && Finds(m, a, l) && ZoneAt(m, l) == 0
    ensures InRange(m, z) && Finds(Store(m, a, z), a, l)
  {
    InFlight(m, flight, z);
    StoredZone(m, flight, a, z, l);
    if !l.Top? {
      ParentIsOwned(m, l);
      EmptyStore(m, flight, a, z, l, ParentLoc(l));
      assert ParentZone(Store(m, a, z), l) == ZoneAt(Store(m, a, z), ParentLoc(l));
    }
  }
}
