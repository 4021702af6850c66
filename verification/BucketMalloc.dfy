/** The bucket allocator (lib/malloc.c): pages cut into objects of one size, the free
    objects of a page threaded through their own first words. */
module BucketMalloc {
  import opened Counting

  const PAGE_SIZE: int := 4096
  const CLASSES: int := 9
  const NULL: int := 0
  const DESCS_PER_PAGE: nat := 256

  /** bucket_dir: 16, 32, ..., 4096. */
  function SizeOf(c: int): (s: int)
    requires 0 <= c < CLASSES
  {
    match c
    case 0 => 16
    case 1 => 32
    case 2 => 64
    case 3 => 128
    case 4 => 256
    case 5 => 512
    case 6 => 1024
    case 7 => 2048
    case _ => 4096
  }

  function Slots(c: int): (n: int)
    requires 0 <= c < CLASSES
  {
    PAGE_SIZE / SizeOf(c)
  }

  /** A bucket descriptor; `page` is a page number, `freeptr` an address. */
  datatype Desc = Desc(page: int, freeptr: int, refcnt: int)

  /** `chain` per size class, `word` the first words of objects; `fl` lists the free
      objects of each page and `live` gives the requested length of each live object
      (the code keeps neither). */
  datatype Heap = Heap(chain: seq<seq<Desc>>, word: map<int, int>, fl: map<int, seq<int>>, live: map<int, int>)

  predicate IsBucket(h: Heap, c: int, i: int) {
    |h.chain| == CLASSES && 0 <= c < CLASSES && 0 <= i < |h.chain[c]|
  }

  /** Address a is an object of the page in class c. */
  predicate IsSlot(c: int, page: int, a: int) {
    0 <= c < CLASSES && a / PAGE_SIZE == page && (a % PAGE_SIZE) % SizeOf(c) == 0
  }

  predicate Repeats(s: seq<int>, i: int, j: int) {
    0 <= i < |s| && 0 <= j < |s| && s[i] == s[j]
  }

  ghost predicate Distinct(s: seq<int>) {
    forall i, j :: Repeats(s, i, j) ==> i == j
  }

  function After(f: seq<int>, i: int): int
    requires 0 <= i < |f|
  {
    if i + 1 < |f| then f[i + 1] else NULL
  }

  /** The words starting at `ptr` thread exactly the list f: NULL-terminated, acyclic. */
  ghost predicate Threaded(word: map<int, int>, ptr: int, f: seq<int>) {
    && ptr == (if f == [] then NULL else f[0])
    && Distinct(f)
    && (forall i :: 0 <= i < |f| ==> f[i] in word && word[f[i]] == After(f, i))
  }

  ghost predicate BucketOk(h: Heap, c: int, d: Desc) {
    && 0 <= c < CLASSES && 0 < d.page && d.page in h.fl
    && Threaded(h.word, d.freeptr, h.fl[d.page])
    && (forall a :: a in h.fl[d.page] ==> IsSlot(c, d.page, a))
    && d.refcnt + |h.fl[d.page]| == Slots(c) && 0 <= d.refcnt
    && (forall a :: IsSlot(c, d.page, a) ==> (a in h.live <==> a !in h.fl[d.page]))
    && (forall a :: IsSlot(c, d.page, a) && a in h.live ==> 0 <= h.live[a] <= SizeOf(c))
  }

  predicate SamePage(h: Heap, c: int, i: int, e: int, j: int) {
    IsBucket(h, c, i) && IsBucket(h, e, j) && h.chain[c][i].page == h.chain[e][j].page
  }

  ghost predicate PagesApart(h: Heap) {
    forall c, i, e, j :: SamePage(h, c, i, e, j) ==> c == e && i == j
  }

  ghost predicate Homed(h: Heap, a: int) {
    exists c, i :: IsBucket(h, c, i) && IsSlot(c, h.chain[c][i].page, a)
  }

  ghost predicate NoEmptyBucket(h: Heap) {
    forall c, i :: IsBucket(h, c, i) ==> h.chain[c][i].refcnt > 0
  }

  ghost predicate Inv(h: Heap) {
    Core(h) && NoEmptyBucket(h)
  }

  ghost predicate Core(h: Heap) {
    && |h.chain| == CLASSES
    && (forall c, i :: IsBucket(h, c, i) ==> BucketOk(h, c, h.chain[c][i]))
    && PagesApart(h)
    && (forall a :: a in h.live ==> Homed(h, a))
  }

  // ---- what the invariant means for callers ----

  /** Two live objects, however long within their requests, never overlap. */
  lemma LiveDisjoint(h: Heap, a: int, b: int)
    requires Inv(h) && a in h.live && b in h.live && a != b
    ensures a + h.live[a] <= b || b + h.live[b] <= a
  {
    assert Homed(h, a) && Homed(h, b);
    var c, i :| IsBucket(h, c, i) && IsSlot(c, h.chain[c][i].page, a);
    var e, j :| IsBucket(h, e, j) && IsSlot(e, h.chain[e][j].page, b);
    if c == e && i == j {
      SlotsApart(c, h.chain[c][i].page, a, b);
    } else {
      assert !SamePage(h, c, i, e, j);
      SlotInPage(c, h.chain[c][i].page, a);
      SlotInPage(e, h.chain[e][j].page, b);
    }
  }

  lemma SlotsApart(c: int, page: int, a: int, b: int)
    requires IsSlot(c, page, a) && IsSlot(c, page, b) && a != b
    ensures a + SizeOf(c) <= b || b + SizeOf(c) <= a
  {
    if c == 0 {} else if c == 1 {} else if c == 2 {} else if c == 3 {} else if c == 4 {}
    else if c == 5 {} else if c == 6 {} else if c == 7 {} else {}
  }

  lemma SlotInPage(c: int, page: int, a: int)
    requires IsSlot(c, page, a)
    ensures page * PAGE_SIZE <= a && a + SizeOf(c) <= (page + 1) * PAGE_SIZE
  {
    if c == 0 {} else if c == 1 {} else if c == 2 {} else if c == 3 {} else if c == 4 {}
    else if c == 5 {} else if c == 6 {} else if c == 7 {} else {}
  }

  /** Index of a slot within its page. */
  function Index(c: int, a: int): int
    requires 0 <= c < CLASSES
  {
    (a % PAGE_SIZE) / SizeOf(c)
  }

  lemma IndexInjective(c: int, page: int, a: int, b: int)
    requires IsSlot(c, page, a) && IsSlot(c, page, b) && Index(c, a) == Index(c, b)
    ensures a == b
  {
    if c == 0 {} else if c == 1 {} else if c == 2 {} else if c == 3 {} else if c == 4 {}
    else if c == 5 {} else if c == 6 {} else if c == 7 {} else {}
  }

  lemma IndexRange(c: int, page: int, a: int)
    requires IsSlot(c, page, a)
    ensures 0 <= Index(c, a) < Slots(c)
  {
    if c == 0 {} else if c == 1 {} else if c == 2 {} else if c == 3 {} else if c == 4 {}
    else if c == 5 {} else if c == 6 {} else if c == 7 {} else {}
  }

  /** If every slot's worth of objects is on the free list, none is live: the page
      can be given back. */
  lemma FullListHasAll(c: int, page: int, f: seq<int>, a: int)
    requires 0 <= c < CLASSES && Distinct(f) && |f| == Slots(c) && IsSlot(c, page, a)
    requires forall x :: x in f ==> IsSlot(c, page, x)
    ensures a in f
  {
    if a !in f {
      var s := set x | x in f;
      SeqSetSize(f);
      forall x | x in s + {a}
        ensures 0 <= Index(c, x) < Slots(c)
      {
        IndexRange(c, page, x);
      }
      forall x, y | x in s + {a} && y in s + {a} && Index(c, x) == Index(c, y)
        ensures x == y
      {
        IndexInjective(c, page, x, y);
      }
      Pigeonhole(s + {a}, x => Index(c, x), 0, Slots(c));
    }
  }

  lemma {:induction false} SeqSetSize(f: seq<int>)
    requires Distinct(f)
    ensures |set x | x in f| == |f|
    decreases |f|
  {
    if f == [] {
      assert (set x | x in f) == {};
    } else {
      var g := f[1..];
      assert forall i, j :: Repeats(g, i, j) ==> Repeats(f, i + 1, j + 1);
      SeqSetSize(g);
      assert f[0] !in g by {
        forall i | 0 <= i < |g|
          ensures g[i] != f[0]
        {
          assert !Repeats(f, 0, i + 1);
        }
      }
      assert (set x | x in f) == (set x | x in g) + {f[0]};
    }
  }

  // ---- the steps of malloc and free ----

  /** Take the first free object of a bucket. */
  function Pop(h: Heap, c: int, i: int, len: int): Heap
    requires IsBucket(h, c, i) && h.chain[c][i].page in h.fl && h.fl[h.chain[c][i].page] != []
      && h.chain[c][i].freeptr in h.word
  {
    var d := h.chain[c][i];
    Heap(h.chain[c := h.chain[c][i := Desc(d.page, h.word[d.freeptr], d.refcnt + 1)]], h.word,
         h.fl[d.page := h.fl[d.page][1..]], h.live[d.freeptr := len])
  }

  lemma TailThreaded(word: map<int, int>, ptr: int, f: seq<int>)
    requires Threaded(word, ptr, f) && f != []
    ensures ptr in word && Threaded(word, word[ptr], f[1..]) && ptr !in f[1..]
  {
    var g := f[1..];
    assert word[f[0]] == After(f, 0);
    assert forall i, j :: Repeats(g, i, j) ==> Repeats(f, i + 1, j + 1);
    forall i | 0 <= i < |g|
      ensures g[i] in word && word[g[i]] == After(g, i) && g[i] != ptr
    {
      assert word[f[i + 1]] == After(f, i + 1);
      assert !Repeats(f, 0, i + 1);
    }
  }

  lemma BucketPage(h: Heap, c: int, i: int, e: int, j: int)
    requires PagesApart(h) && IsBucket(h, c, i) && IsBucket(h, e, j) && !(c == e && i == j)
    ensures h.chain[c][i].page != h.chain[e][j].page
  {
    assert !SamePage(h, c, i, e, j);
  }

  lemma CountAtLeast0(h: Heap, c: int, i: int)
    requires Core(h) && IsBucket(h, c, i)
    ensures h.chain[c][i].refcnt >= 0
  {
    assert BucketOk(h, c, h.chain[c][i]);
  }

  lemma PopKeeps(h: Heap, c: int, i: int, len: int)
    requires Core(h) && IsBucket(h, c, i) && h.chain[c][i].freeptr != NULL && 0 <= len <= SizeOf(c)
    ensures var d := h.chain[c][i];
      && d.page in h.fl && h.fl[d.page] != []
      && d.freeptr in h.word && d.freeptr !in h.live && IsSlot(c, d.page, d.freeptr)
    ensures Core(Pop(h, c, i, len))
  {
    var d := h.chain[c][i];
    var f := h.fl[d.page];
    assert BucketOk(h, c, d);
    TailThreaded(h.word, d.freeptr, f);
    var r := Pop(h, c, i, len);
    assert f[0] == d.freeptr && f[0] in f;
    forall e, j | IsBucket(r, e, j)
      ensures BucketOk(r, e, r.chain[e][j])
    {
      assert IsBucket(h, e, j) && BucketOk(h, e, h.chain[e][j]);
      if e == c && j == i {
        assert forall a :: a in f[1..] <==> a in f && a != d.freeptr;
      } else {
        BucketPage(h, c, i, e, j);
      }
    }
    SamePages(h, r);
    forall a | a in r.live
      ensures Homed(r, a)
    {
      if a == d.freeptr {
        assert IsSlot(c, r.chain[c][i].page, a) && IsBucket(r, c, i);
      } else {
        assert Homed(h, a);
        var e, j :| IsBucket(h, e, j) && IsSlot(e, h.chain[e][j].page, a);
        assert IsBucket(r, e, j) && IsSlot(e, r.chain[e][j].page, a);
      }
    }
  }

  lemma SamePages(h: Heap, r: Heap)
    requires PagesApart(h) && |r.chain| == |h.chain|
    requires forall c :: 0 <= c < |h.chain| ==> |r.chain[c]| == |h.chain[c]|
    requires forall c, i :: IsBucket(h, c, i) ==> r.chain[c][i].page == h.chain[c][i].page
    ensures PagesApart(r) && forall c, i :: IsBucket(r, c, i) <==> IsBucket(h, c, i)
  {
    forall c, i, e, j | SamePage(r, c, i, e, j)
      ensures c == e && i == j
    {
      assert SamePage(h, c, i, e, j);
    }
  }

  /** Link a live object back as the first free one of its bucket. */
  function Push(h: Heap, c: int, i: int, a: int): Heap
    requires IsBucket(h, c, i) && h.chain[c][i].page in h.fl
  {
    var d := h.chain[c][i];
    Heap(h.chain[c := h.chain[c][i := Desc(d.page, a, d.refcnt - 1)]], h.word[a := d.freeptr],
         h.fl[d.page := [a] + h.fl[d.page]], h.live - {a})
  }

  lemma ConsThreaded(word: map<int, int>, ptr: int, f: seq<int>, a: int)
    requires Threaded(word, ptr, f) && a !in f
    ensures Threaded(word[a := ptr], a, [a] + f)
  {
    var g, w := [a] + f, word[a := ptr];
    forall i, j | Repeats(g, i, j)
      ensures i == j
    {
      assert i > 0 && j > 0 ==> Repeats(f, i - 1, j - 1);
      assert i > 0 ==> f[i - 1] in f;
      assert j > 0 ==> f[j - 1] in f;
    }
    forall i | 0 <= i < |g|
      ensures g[i] in w && w[g[i]] == After(g, i)
    {
      if i > 0 {
        assert g[i] == f[i - 1] && f[i - 1] in f;
        assert word[f[i - 1]] == After(f, i - 1);
      }
    }
  }

  lemma FrameThreaded(word: map<int, int>, ptr: int, f: seq<int>, a: int, v: int)
    requires Threaded(word, ptr, f) && a !in f
    ensures Threaded(word[a := v], ptr, f)
  {
    forall i | 0 <= i < |f|
      ensures f[i] in word[a := v] && word[a := v][f[i]] == After(f, i)
    {
      assert f[i] in f;
      assert word[f[i]] == After(f, i);
    }
  }

  lemma PushKeeps(h: Heap, c: int, i: int, a: int)
    requires Core(h) && IsBucket(h, c, i) && a in h.live && IsSlot(c, h.chain[c][i].page, a) && h.chain[c][i].refcnt > 0
    ensures h.chain[c][i].page in h.fl && Core(Push(h, c, i, a))
  {
    var d := h.chain[c][i];
    assert BucketOk(h, c, d);
    var r := Push(h, c, i, a);
    forall e, j | IsBucket(r, e, j)
      ensures BucketOk(r, e, r.chain[e][j])
    {
      assert IsBucket(h, e, j) && BucketOk(h, e, h.chain[e][j]);
      if e == c && j == i {
        ConsThreaded(h.word, d.freeptr, h.fl[d.page], a);
      } else {
        BucketPage(h, c, i, e, j);
        FrameThreaded(h.word, h.chain[e][j].freeptr, h.fl[h.chain[e][j].page], a, d.freeptr);
      }
    }
    SamePages(h, r);
    forall x | x in r.live
      ensures Homed(r, x)
    {
      assert Homed(h, x);
      var e, j :| IsBucket(h, e, j) && IsSlot(e, h.chain[e][j].page, x);
      assert IsBucket(r, e, j) && IsSlot(e, r.chain[e][j].page, x);
    }
  }

  /** Unlink the descriptor of an empty bucket. */
  function Unlink(h: Heap, c: int, i: int): Heap
    requires IsBucket(h, c, i)
  {
    Heap(h.chain[c := h.chain[c][..i] + h.chain[c][i + 1..]], h.word, h.fl - {h.chain[c][i].page}, h.live)
  }

  lemma UnlinkAt(h: Heap, c: int, i: int, e: int, j: int)
    requires IsBucket(h, c, i)
    ensures var k := if e == c && j >= i then j + 1 else j;
      IsBucket(Unlink(h, c, i), e, j) <==> IsBucket(h, e, k) && (0 <= j)
    ensures IsBucket(Unlink(h, c, i), e, j) ==>
      Unlink(h, c, i).chain[e][j] == h.chain[e][if e == c && j >= i then j + 1 else j]
  {
  }

  lemma UnlinkEmpty(h: Heap, c: int, i: int, a: int)
    requires Core(h) && IsBucket(h, c, i) && h.chain[c][i].refcnt == 0 && a in h.live
    ensures a / PAGE_SIZE != h.chain[c][i].page && Homed(Unlink(h, c, i), a)
  {
    var d := h.chain[c][i];
    assert BucketOk(h, c, d);
    assert Homed(h, a);
    var e, j :| IsBucket(h, e, j) && IsSlot(e, h.chain[e][j].page, a);
    if e == c && j == i {
      FullListHasAll(c, d.page, h.fl[d.page], a);
    } else {
      BucketPage(h, c, i, e, j);
      var k := if e == c && j > i then j - 1 else j;
      UnlinkAt(h, c, i, e, k);
      assert IsBucket(Unlink(h, c, i), e, k);
    }
  }

  lemma UnlinkBuckets(h: Heap, c: int, i: int)
    requires Core(h) && IsBucket(h, c, i) && h.chain[c][i].refcnt == 0
    ensures forall e, j :: IsBucket(Unlink(h, c, i), e, j) ==> BucketOk(Unlink(h, c, i), e, Unlink(h, c, i).chain[e][j])
  {
    var r := Unlink(h, c, i);
    forall e, j | IsBucket(r, e, j)
      ensures BucketOk(r, e, r.chain[e][j])
    {
      UnlinkAt(h, c, i, e, j);
      var k := if e == c && j >= i then j + 1 else j;
      assert BucketOk(h, e, h.chain[e][k]);
      BucketPage(h, c, i, e, k);
    }
  }

  lemma UnlinkKeeps(h: Heap, c: int, i: int)
    requires Core(h) && IsBucket(h, c, i) && h.chain[c][i].refcnt == 0
    ensures Core(Unlink(h, c, i))
    ensures forall a :: a in h.live ==> a / PAGE_SIZE != h.chain[c][i].page
  {
    hide BucketOk;
    var r := Unlink(h, c, i);
    forall a | a in h.live
      ensures a / PAGE_SIZE != h.chain[c][i].page && Homed(r, a)
    {
      UnlinkEmpty(h, c, i, a);
    }
    UnlinkBuckets(h, c, i);
    forall b, x, e, j | SamePage(r, b, x, e, j)
      ensures b == e && x == j
    {
      UnlinkAt(h, c, i, b, x);
      UnlinkAt(h, c, i, e, j);
      assert SamePage(h, b, if b == c && x >= i then x + 1 else x, e, if e == c && j >= i then j + 1 else j);
    }
  }

  /** The address lies in the object at a, as long as it was asked for. */
  predicate Within(h: Heap, a: int, x: int)
    requires a in h.live
  {
    a <= x < a + h.live[a]
  }

  /** Words outside the object at a are as they were. */
  ghost predicate StoredWithin(h: Heap, a: int, w: map<int, int>)
    requires a in h.live
  {
    forall x :: !Within(h, a, x) ==> (x in w <==> x in h.word) && (x in w ==> w[x] == h.word[x])
  }

  /** No free object begins inside a live one. */
  lemma NoFreeWithin(h: Heap, a: int, e: int, j: int, x: int)
    requires Core(h) && a in h.live && IsBucket(h, e, j) && h.chain[e][j].page in h.fl
    requires x in h.fl[h.chain[e][j].page]
    ensures !Within(h, a, x)
  {
    assert Homed(h, a);
    var c, i :| IsBucket(h, c, i) && IsSlot(c, h.chain[c][i].page, a);
    assert BucketOk(h, c, h.chain[c][i]) && BucketOk(h, e, h.chain[e][j]);
    if c == e && i == j {
      SlotsApart(c, h.chain[c][i].page, a, x);
    } else {
      BucketPage(h, c, i, e, j);
      SlotInPage(c, h.chain[c][i].page, a);
      SlotInPage(e, h.chain[e][j].page, x);
    }
  }

  /** Whatever a caller stores anywhere inside its own object. */
  lemma UserStoreKeeps(h: Heap, a: int, w: map<int, int>)
    requires Inv(h) && a in h.live && StoredWithin(h, a, w)
    ensures Inv(h.(word := w))
  {
    var r := h.(word := w);
    hide BucketOk;
    forall e, j | IsBucket(r, e, j)
      ensures BucketOk(r, e, r.chain[e][j])
    {
      assert IsBucket(h, e, j) && BucketOk(h, e, h.chain[e][j]);
      StoredBucket(h, a, w, e, j);
    }
    SamePages(h, r);
    forall x | x in r.live
      ensures Homed(r, x)
    {
      assert Homed(h, x);
      var e, j :| IsBucket(h, e, j) && IsSlot(e, h.chain[e][j].page, x);
      assert IsBucket(r, e, j);
    }
  }

  lemma StoredBucket(h: Heap, a: int, w: map<int, int>, e: int, j: int)
    requires Core(h) && a in h.live && StoredWithin(h, a, w)
    requires IsBucket(h, e, j) && BucketOk(h, e, h.chain[e][j])
    ensures BucketOk(h.(word := w), e, h.chain[e][j])
  {
    var f := h.fl[h.chain[e][j].page];
    forall k | 0 <= k < |f|
      ensures f[k] in w && w[f[k]] == After(f, k)
    {
      assert f[k] in f && f[k] in h.word && h.word[f[k]] == After(f, k);
      NoFreeWithin(h, a, e, j, f[k]);
    }
  }

  // ---- a new bucket ----

  /** The objects of a page from the k-th on. */
  function SlotsFrom(c: int, page: int, k: int): (f: seq<int>)
    requires 0 <= c < CLASSES && 0 <= k <= Slots(c)
    ensures |f| == Slots(c) - k
    ensures forall i :: 0 <= i < |f| ==> f[i] == page * PAGE_SIZE + (k + i) * SizeOf(c)
  {
    seq(Slots(c) - k, i requires 0 <= i => page * PAGE_SIZE + (k + i) * SizeOf(c))
  }

  lemma SlotAddress(c: int, page: int, k: int)
    requires 0 <= c < CLASSES && 0 <= k < Slots(c)
    ensures IsSlot(c, page, page * PAGE_SIZE + k * SizeOf(c)) && Index(c, page * PAGE_SIZE + k * SizeOf(c)) == k
  {
    SlotOffset(c, k);
    InPage(page, k * SizeOf(c));
  }

  lemma InPage(page: int, x: int)
    requires 0 <= x < PAGE_SIZE
    ensures (page * PAGE_SIZE + x) / PAGE_SIZE == page && (page * PAGE_SIZE + x) % PAGE_SIZE == x
  {
  }

  lemma SlotBound(c: int, k: int)
    requires 0 <= c < CLASSES && 0 <= k < Slots(c)
    ensures 0 <= k * SizeOf(c) < PAGE_SIZE
  {
    if c == 0 {} else if c == 1 {} else if c == 2 {} else if c == 3 {} else if c == 4 {}
    else if c == 5 {} else if c == 6 {} else if c == 7 {} else {}
  }

  lemma {:induction false} Quotient(k: nat, n: nat)
    requires n > 0
    ensures k * n % n == 0 && k * n / n == k
  {
    if k > 0 {
      Quotient(k - 1, n);
      assert k * n == (k - 1) * n + n;
      assert ((k - 1) * n + n) / n == (k - 1) * n / n + 1 && ((k - 1) * n + n) % n == (k - 1) * n % n by {
        OneMore((k - 1) * n, n);
      }
    }
  }

  lemma OneMore(x: nat, n: nat)
    requires n > 0
    ensures (x + n) / n == x / n + 1 && (x + n) % n == x % n
  {
    assert x == n * (x / n) + x % n;
    assert x + n == n * (x / n + 1) + x % n;
    Unique(x + n, n, x / n + 1, x % n);
  }

  lemma Unique(x: nat, n: nat, q: int, r: int)
    requires n > 0 && x == n * q + r && 0 <= r < n
    ensures x / n == q && x % n == r
  {
    assert x == n * (x / n) + x % n;
    Apart(n, x / n - q);
    assert n * (x / n - q) == r - x % n;
  }

  lemma Apart(n: int, d: int)
    requires n > 0
    ensures d >= 1 ==> n * d >= n
    ensures d <= -1 ==> n * d <= -n
  {
  }

  lemma SlotOffset(c: int, k: int)
    requires 0 <= c < CLASSES && 0 <= k < Slots(c)
    ensures 0 <= k * SizeOf(c) < PAGE_SIZE && k * SizeOf(c) % SizeOf(c) == 0 && k * SizeOf(c) / SizeOf(c) == k
  {
    SlotBound(c, k);
    Quotient(k, SizeOf(c));
  }

  lemma AllSlots(c: int, page: int)
    requires 0 <= c < CLASSES
    ensures Distinct(SlotsFrom(c, page, 0))
    ensures forall a :: a in SlotsFrom(c, page, 0) <==> IsSlot(c, page, a)
  {
    var f := SlotsFrom(c, page, 0);
    forall i, j | Repeats(f, i, j)
      ensures i == j
    {
      SlotAddress(c, page, i);
      SlotAddress(c, page, j);
    }
    forall a
      ensures a in f <==> IsSlot(c, page, a)
    {
      if a in f {
        var i :| 0 <= i < |f| && f[i] == a;
        SlotAddress(c, page, i);
      }
      if IsSlot(c, page, a) {
        IndexRange(c, page, a);
        SlotAddress(c, page, Index(c, a));
        IndexInjective(c, page, a, f[Index(c, a)]);
      }
    }
  }

  lemma SomeSlots(c: int)
    requires 0 <= c < CLASSES
    ensures 1 <= Slots(c)
  {
  }

  lemma SlotStep(c: int, page: int, k: int)
    requires 0 <= c < CLASSES && 0 <= k && k + 1 < Slots(c)
    ensures SlotsFrom(c, page, 0)[k + 1] == SlotsFrom(c, page, 0)[k] + SizeOf(c)
  {
    var f := SlotsFrom(c, page, 0);
    assert f[k + 1] == page * PAGE_SIZE + (k + 1) * SizeOf(c);
    assert f[k] == page * PAGE_SIZE + k * SizeOf(c);
    assert (k + 1) * SizeOf(c) == k * SizeOf(c) + SizeOf(c);
  }

  /** The first k words of the list f are set. */
  ghost predicate ThreadedTo(word: map<int, int>, f: seq<int>, k: int) {
    forall j :: 0 <= j < k && j < |f| ==> f[j] in word && word[f[j]] == After(f, j)
  }

  lemma ThreadNext(word: map<int, int>, f: seq<int>, k: int, v: int)
    requires Distinct(f) && 0 <= k < |f| && ThreadedTo(word, f, k) && v == After(f, k)
    ensures ThreadedTo(word[f[k] := v], f, k + 1) && f[k] in f
  {
    forall j | 0 <= j < k
      ensures f[j] != f[k]
    {
      assert !Repeats(f, j, k);
    }
  }

  /** The page of no bucket. */
  ghost predicate FreshPage(h: Heap, page: int) {
    0 < page && forall c, i :: IsBucket(h, c, i) ==> h.chain[c][i].page != page
  }

  /** A new first bucket of class c, threaded by w. */
  function AddBucket(h: Heap, c: int, page: int, w: map<int, int>): Heap
    requires 0 <= c < |h.chain| == CLASSES
  {
    Heap(h.chain[c := [Desc(page, page * PAGE_SIZE, 0)] + h.chain[c]], w, h.fl[page := SlotsFrom(c, page, 0)], h.live)
  }

  lemma AddBucketAt(h: Heap, c: int, page: int, w: map<int, int>, e: int, j: int)
    requires 0 <= c < |h.chain| == CLASSES && IsBucket(AddBucket(h, c, page, w), e, j)
    ensures e == c && j == 0 ==> AddBucket(h, c, page, w).chain[e][j] == Desc(page, page * PAGE_SIZE, 0)
    ensures !(e == c && j == 0) ==> var k := if e == c then j - 1 else j;
      IsBucket(h, e, k) && AddBucket(h, c, page, w).chain[e][j] == h.chain[e][k]
  {
  }

  lemma AddBucketOk(h: Heap, c: int, page: int, w: map<int, int>, e: int, j: int)
    requires Core(h) && 0 <= c < CLASSES && FreshPage(h, page) && IsBucket(AddBucket(h, c, page, w), e, j)
    requires Threaded(w, page * PAGE_SIZE, SlotsFrom(c, page, 0))
    requires forall a :: a in h.word && !IsSlot(c, page, a) ==> a in w && w[a] == h.word[a]
    ensures BucketOk(AddBucket(h, c, page, w), e, AddBucket(h, c, page, w).chain[e][j])
  {
    hide Threaded, BucketOk, PagesApart;
    AddBucketAt(h, c, page, w, e, j);
    if e == c && j == 0 {
      AllSlots(c, page);
      FreshEmpty(h, c, page);
      BucketOkNew(h, c, page, w);
    } else {
      BucketOkOld(h, c, page, w, e, if e == c then j - 1 else j);
    }
  }

  lemma BucketOkOld(h: Heap, c: int, page: int, w: map<int, int>, e: int, k: int)
    requires |h.chain| == CLASSES && 0 <= c < CLASSES && FreshPage(h, page) && IsBucket(h, e, k)
      && BucketOk(h, e, h.chain[e][k])
    requires forall a :: a in h.word && !IsSlot(c, page, a) ==> a in w && w[a] == h.word[a]
    ensures BucketOk(AddBucket(h, c, page, w), e, h.chain[e][k])
  {
    var d := h.chain[e][k];
    var f := h.fl[d.page];
    forall i | 0 <= i < |f| && f[i] in h.word
      ensures f[i] in w && w[f[i]] == h.word[f[i]]
    {
      assert f[i] in f && IsSlot(e, d.page, f[i]);
    }
    OtherWords(h.word, w, d.freeptr, f);
  }

  lemma FreshEmpty(h: Heap, c: int, page: int)
    requires Core(h) && FreshPage(h, page) && 0 <= c < CLASSES
    ensures forall a :: IsSlot(c, page, a) ==> a !in h.live
  {
    assert forall a :: IsSlot(c, page, a) ==> !Homed(h, a);
  }

  lemma BucketOkNew(h: Heap, c: int, page: int, w: map<int, int>)
    requires |h.chain| == CLASSES && 0 <= c < CLASSES && 0 < page
      && Threaded(w, page * PAGE_SIZE, SlotsFrom(c, page, 0))
    requires forall a :: IsSlot(c, page, a) ==> a !in h.live
    requires forall a :: a in SlotsFrom(c, page, 0) <==> IsSlot(c, page, a)
    ensures BucketOk(AddBucket(h, c, page, w), c, Desc(page, page * PAGE_SIZE, 0))
  {
    hide Threaded;
  }

  lemma OtherWords(word: map<int, int>, w: map<int, int>, ptr: int, f: seq<int>)
    requires Threaded(word, ptr, f)
    requires forall i :: 0 <= i < |f| && f[i] in word ==> f[i] in w && w[f[i]] == word[f[i]]
    ensures Threaded(w, ptr, f)
  {
    forall i | 0 <= i < |f|
      ensures f[i] in w && w[f[i]] == After(f, i)
    {
      assert f[i] in f;
      assert word[f[i]] == After(f, i);
    }
  }

  lemma AddBucketKeeps(h: Heap, c: int, page: int, w: map<int, int>)
    requires Core(h) && 0 <= c < CLASSES && FreshPage(h, page)
    requires Threaded(w, page * PAGE_SIZE, SlotsFrom(c, page, 0))
    requires forall a :: a in h.word && !IsSlot(c, page, a) ==> a in w && w[a] == h.word[a]
    ensures Core(AddBucket(h, c, page, w))
  {
    hide BucketOk, Threaded;
    var r := AddBucket(h, c, page, w);
    forall e, j | IsBucket(r, e, j)
      ensures BucketOk(r, e, r.chain[e][j])
    {
      AddBucketOk(h, c, page, w, e, j);
    }
    forall b, x, e, j | SamePage(r, b, x, e, j)
      ensures b == e && x == j
    {
      AddBucketAt(h, c, page, w, b, x);
      AddBucketAt(h, c, page, w, e, j);
      if !(b == c && x == 0) && !(e == c && j == 0) {
        assert SamePage(h, b, if b == c then x - 1 else x, e, if e == c then j - 1 else j);
      }
    }
    forall a | a in r.live
      ensures Homed(r, a)
    {
      assert Homed(h, a);
      var e, j :| IsBucket(h, e, j) && IsSlot(e, h.chain[e][j].page, a);
      var k := if e == c then j + 1 else j;
      assert IsBucket(r, e, k) && r.chain[e][k] == h.chain[e][j];
    }
  }

  // ---- the code ----

  datatype Result = Object(p: int) | BadArgument | OutOfMemory

  class Allocator {
    const chain: array<seq<Desc>>
    var word: map<int, int>
    /** Length of the list free_bucket_desc. */
    var spare: nat
    ghost var fl: map<int, seq<int>>
    ghost var live: map<int, int>

    ghost function H(): Heap
      reads this, chain
    {
      Heap(chain[..], word, fl, live)
    }

    ghost predicate Valid()
      reads this, chain
    {
      chain.Length == CLASSES && Inv(H())
    }

    constructor ()
      ensures Valid() && live == map[] && fresh(chain)
    {
      chain := new seq<Desc>[CLASSES](_ => []);
      word, spare, fl, live := map[], 0, map[], map[];
    }

    /** The threading loop of malloc over a fresh page. */
    method ThreadPage(c: int, page: int)
      requires 0 <= c < CLASSES && 0 < page
      modifies `word
      ensures Threaded(word, page * PAGE_SIZE, SlotsFrom(c, page, 0))
      ensures forall a :: a in old(word) && !IsSlot(c, page, a) ==> a in word && word[a] == old(word)[a]
    {
      hide SlotsFrom, IsSlot, Distinct;
      var size := SizeOf(c);
      var cp := page * PAGE_SIZE;
      var i := PAGE_SIZE / size;
      ghost var f := SlotsFrom(c, page, 0);
      ghost var w := word;
      AllSlots(c, page);
      SomeSlots(c);
      assert f[0] == cp;
      while i > 1
        invariant 1 <= i <= |f| && cp == f[|f| - i]
        invariant ThreadedTo(word, f, |f| - i)
        invariant forall a :: a in w && a !in f ==> a in word && word[a] == w[a]
      {
        ghost var k := |f| - i;
        assert f[k + 1] == f[k] + size by { SlotStep(c, page, k); }
        ThreadNext(word, f, k, f[k + 1]);
        word := word[cp := cp + size];
        cp := cp + size;
        i := i - 1;
      }
      ThreadNext(word, f, |f| - 1, NULL);
      word := word[cp := NULL];
      assert forall k :: 0 <= k < |f| ==> f[k] in word && word[f[k]] == After(f, k);
    }

    /** my_malloc(len).  `descPage` and `page` are what get_free_page would return for
        a page of descriptors and for a bucket (0: none). */
    method Malloc(len: nat, descPage: int, page: int) returns (r: Result)
      requires Valid() && (page != 0 ==> FreshPage(H(), page))
      modifies this, chain
      ensures r == BadArgument <==> len > PAGE_SIZE
      ensures r.Object? ==> Valid() && r.p !in old(live) && live == old(live)[r.p := len]
      ensures r == OutOfMemory ==> page == 0 || descPage == 0
      ensures r.Object? ==> exists c, i :: IsBucket(H(), c, i) && IsSlot(c, chain[c][i].page, r.p) && BestFit(c, len)
    {
      hide Core, BucketOk, IsSlot;
      var c := 0;
      while c < CLASSES && SizeOf(c) < len
        invariant 0 <= c <= CLASSES && forall e :: 0 <= e < c ==> SizeOf(e) < len
      {
        c := c + 1;
      }
      if c == CLASSES {
        assert SizeOf(CLASSES - 1) < len;
        return BadArgument;
      }
      var i := 0;
      while i < |chain[c]| && chain[c][i].freeptr == NULL
        invariant 0 <= i <= |chain[c]|
      {
        i := i + 1;
      }
      if i == |chain[c]| {
        if spare == 0 {
          if descPage == 0 {
            return OutOfMemory;
          }
          spare := DESCS_PER_PAGE;
        }
        spare := spare - 1;
        if page == 0 {
          return OutOfMemory;
        }
        ghost var h := H();
        ThreadPage(c, page);
        AddBucketKeeps(h, c, page, word);
        fl := fl[page := SlotsFrom(c, page, 0)];
        chain[c] := [Desc(page, page * PAGE_SIZE, 0)] + chain[c];
        assert H() == AddBucket(h, c, page, word);
        i := 0;
      }
      assert IsBucket(H(), c, i);
      var p := TakeObject(c, i, len);
      r := Object(p);
      assert IsBucket(H(), c, i) && BestFit(c, len);
    }

    /** The end of malloc: unlink the first free object of a bucket. */
    method TakeObject(c: int, i: int, len: nat) returns (p: int)
      requires chain.Length == CLASSES && Core(H()) && IsBucket(H(), c, i) && len <= SizeOf(c)
        && chain[c][i].freeptr != NULL
      requires forall e, j :: IsBucket(H(), e, j) && !(e == c && j == i) ==> chain[e][j].refcnt > 0
      modifies this, chain
      ensures Valid() && p !in old(live) && live == old(live)[p := len]
      ensures IsBucket(H(), c, i) && IsSlot(c, chain[c][i].page, p)
    {
      hide Core, BucketOk, IsSlot;
      ghost var h := H();
      PopKeeps(h, c, i, len);
      var d := chain[c][i];
      assert d == h.chain[c][i];
      CountAtLeast0(h, c, i);
      p := d.freeptr;
      chain[c] := chain[c][i := Desc(d.page, word[p], d.refcnt + 1)];
      fl := fl[d.page := fl[d.page][1..]];
      live := live[p := len];
      assert H() == Pop(h, c, i, len);
      assert forall e, j :: IsBucket(H(), e, j) ==> IsBucket(h, e, j);
    }

    /** The search of free_s: the bucket of the object's page among the classes of at
        least `size` bytes. Any hint up to the requested length leads to it. */
    method FindBucket(obj: int, size: int) returns (c: int, i: int)
      requires Valid() && obj in live && 0 <= size <= live[obj]
      ensures IsBucket(H(), c, i) && IsSlot(c, chain[c][i].page, obj)
    {
      ghost var h := H();
      assert Homed(h, obj);
      ghost var e, j :| IsBucket(h, e, j) && IsSlot(e, h.chain[e][j].page, obj);
      assert BucketOk(h, e, h.chain[e][j]);
      var page := obj / PAGE_SIZE;
      c := 0;
      while c < CLASSES
        invariant 0 <= c <= e
      {
        if size <= SizeOf(c) {
          i := 0;
          while i < |chain[c]|
            invariant 0 <= i <= |chain[c]| && (c == e ==> i <= j)
          {
            if chain[c][i].page == page {
              assert SamePage(h, c, i, e, j);
              return;
            }
            i := i + 1;
          }
        }
        c := c + 1;
      }
      assert false;
      i := 0;
    }

    /** free_s, when the last object of the bucket is gone: unlink the descriptor. */
    method Release(c: int, i: int)
      requires chain.Length == CLASSES && Core(H()) && IsBucket(H(), c, i) && chain[c][i].refcnt == 0
      requires forall e, j :: IsBucket(H(), e, j) && !(e == c && j == i) ==> chain[e][j].refcnt > 0
      modifies this, chain
      ensures Valid() && live == old(live)
      ensures forall e, j :: IsBucket(H(), e, j) ==> chain[e][j].page != old(chain[c][i].page)
    {
      hide BucketOk;
      ghost var m := H();
      UnlinkKeeps(m, c, i);
      fl := fl - {chain[c][i].page};
      chain[c] := chain[c][..i] + chain[c][i + 1..];
      spare := spare + 1;
      assert H() == Unlink(m, c, i);
      forall e, j | IsBucket(H(), e, j)
        ensures chain[e][j].page != m.chain[c][i].page && chain[e][j].refcnt > 0
      {
        UnlinkAt(m, c, i, e, j);
        BucketPage(m, c, i, e, if e == c && j >= i then j + 1 else j);
      }
    }

    /** free_s(obj, size).  The page goes back to the system exactly when its last
        object is freed, and then nothing on it is live and no bucket uses it. */
    method FreeS(obj: int, size: int) returns (released: int)
      requires Valid() && obj in live && 0 <= size <= live[obj]
      modifies this, chain
      ensures Valid() && live == old(live) - {obj}
      ensures released == 0 || released == obj / PAGE_SIZE
      ensures released != 0 <==> forall a :: a in live ==> a / PAGE_SIZE != obj / PAGE_SIZE
      ensures released != 0 ==> FreshPage(H(), released)
    {
      hide BucketOk, PagesApart;
      var c, i := FindBucket(obj, size);
      ghost var h := H();
      var d := chain[c][i];
      assert d == h.chain[c][i];
      PositivePage(h, c, i);
      PushKeeps(h, c, i, obj);
      word := word[obj := d.freeptr];
      chain[c] := chain[c][i := Desc(d.page, obj, d.refcnt - 1)];
      fl := fl[d.page := [obj] + fl[d.page]];
      live := live - {obj};
      assert H() == Push(h, c, i, obj);
      assert forall e, j :: IsBucket(H(), e, j) ==> IsBucket(h, e, j);
      if d.refcnt - 1 != 0 {
        LastObject(H(), c, i);
        return 0;
      }
      UnlinkKeeps(H(), c, i);
      Release(c, i);
      released := d.page;
    }
  }

  lemma PositivePage(h: Heap, c: int, i: int)
    requires Core(h) && IsBucket(h, c, i)
    ensures 0 < h.chain[c][i].page && h.chain[c][i].page in h.fl
  {
    assert BucketOk(h, c, h.chain[c][i]);
  }

  /** The smallest class that holds len bytes. */
  ghost predicate BestFit(c: int, len: int) {
    0 <= c < CLASSES && len <= SizeOf(c) && forall e :: 0 <= e < c ==> SizeOf(e) < len
  }

  /** A list of distinct slots that misses none has one entry per slot. */
  lemma AllListed(c: int, page: int, f: seq<int>)
    requires 0 <= c < CLASSES && Distinct(f) && forall a :: a in f <==> IsSlot(c, page, a)
    ensures |f| == Slots(c)
  {
    var g := SlotsFrom(c, page, 0);
    AllSlots(c, page);
    SeqSetSize(f);
    SeqSetSize(g);
    assert forall x :: x in f <==> x in g;
    assert (set x | x in f) == (set x | x in g);
  }

  /** While the reference count is positive some object of the bucket is live. */
  lemma LastObject(h: Heap, c: int, i: int)
    requires Core(h) && IsBucket(h, c, i) && h.chain[c][i].refcnt > 0
    ensures exists a :: a in h.live && a / PAGE_SIZE == h.chain[c][i].page
  {
    var d := h.chain[c][i];
    assert BucketOk(h, c, d);
    if forall a :: IsSlot(c, d.page, a) ==> a in h.fl[d.page] {
      AllListed(c, d.page, h.fl[d.page]);
    } else {
      var a :| IsSlot(c, d.page, a) && a !in h.fl[d.page];
      assert a in h.live && a / PAGE_SIZE == d.page;
    }
  }
}
