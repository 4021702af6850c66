/** The index of the buffer cache: doubly linked hash chains and the circular list
    of victims, rewired in place (fs/buffer.c). Pointers are buffer numbers, NULL is -1. */
module BufferQueues {

  const NULL: int := -1

  /** s without its i-th element. */
  function Minus<T>(s: seq<T>, i: int): seq<T>
    requires 0 <= i < |s|
  {
    s[..i] + s[i + 1..]
  }

  /** A store through a pointer; NULL is guarded by the caller. */
  function Put(s: seq<int>, p: int, v: int): (r: seq<int>)
    ensures |r| == |s|
  {
    if 0 <= p < |s| then s[p := v] else s
  }

  function After(c: seq<int>, i: int, end: int): int
    requires 0 <= i < |c|
  {
    if i + 1 < |c| then c[i + 1] else end
  }

  function Before(c: seq<int>, i: int, end: int): int
    requires 0 <= i < |c|
  {
    if 0 < i then c[i - 1] else end
  }

  /** `c` is the NULL-terminated list from `head`. */
  ghost predicate Chain(head: int, next: seq<int>, prev: seq<int>, c: seq<int>)
    requires |next| == |prev|
  {
    && head == (if c == [] then NULL else c[0])
    && (forall i :: 0 <= i < |c| ==> 0 <= c[i] < |next|)
    && (forall i :: 0 <= i < |c| ==> next[c[i]] == After(c, i, NULL))
    && (forall i :: 0 <= i < |c| ==> prev[c[i]] == Before(c, i, NULL))
    && Distinct(c)
  }

  predicate Clash(c: seq<int>, i: int, j: int) {
    0 <= i < |c| && 0 <= j < |c| && c[i] == c[j]
  }

  ghost predicate Distinct(c: seq<int>) {
    forall i, j :: Clash(c, i, j) ==> i == j
  }

  /** `r` is the circular list from `head`. */
  ghost predicate Ring(head: int, next: seq<int>, prev: seq<int>, r: seq<int>)
    requires |next| == |prev|
  {
    && r != [] && head == r[0]
    && (forall i :: 0 <= i < |r| ==> 0 <= r[i] < |next|)
    && (forall i :: 0 <= i < |r| ==> next[r[i]] == After(r, i, r[0]))
    && (forall i :: 0 <= i < |r| ==> prev[r[i]] == Before(r, i, r[|r| - 1]))
    && Distinct(r)
  }

  lemma DistinctMinus(c: seq<int>, i: int)
    requires Distinct(c) && 0 <= i < |c|
    ensures Distinct(Minus(c, i)) && c[i] !in Minus(c, i)
    ensures forall x :: x in c && x != c[i] ==> x in Minus(c, i)
    ensures forall x :: x in Minus(c, i) ==> x in c
  {
    var d := Minus(c, i);
    forall x | x in c && x != c[i]
      ensures x in d
    {
      var j :| 0 <= j < |c| && c[j] == x;
      assert d[if j < i then j else j - 1] == x;
    }
    forall j, k | Clash(d, j, k)
      ensures j == k
    {
      assert Clash(c, if j < i then j else j + 1, if k < i then k else k + 1);
    }
    forall k | 0 <= k < |d|
      ensures d[k] != c[i]
    {
      assert !Clash(c, if k < i then k else k + 1, i);
    }
  }

  lemma DistinctCons(c: seq<int>, b: int)
    requires Distinct(c) && b !in c
    ensures Distinct([b] + c) && Distinct(c + [b])
  {
    forall j, k | Clash([b] + c, j, k)
      ensures j == k
    {
      assert j > 0 && k > 0 ==> Clash(c, j - 1, k - 1);
    }
    forall j, k | Clash(c + [b], j, k)
      ensures j == k
    {
      assert j < |c| && k < |c| ==> Clash(c, j, k);
    }
  }

  /** The pointers of one remaining buffer after the i-th has been unlinked. */
  lemma UnlinkChainAt(next: seq<int>, prev: seq<int>, c: seq<int>, i: int, k: int)
    requires |next| == |prev| && Chain(if c == [] then NULL else c[0], next, prev, c) && 0 <= i < |c|
      && 0 <= k < |c| - 1
    ensures var d := Minus(c, i);
      && 0 <= d[k] < |next|
      && Put(next, prev[c[i]], next[c[i]])[d[k]] == After(d, k, NULL)
      && Put(prev, next[c[i]], prev[c[i]])[d[k]] == Before(d, k, NULL)
  {
    var j := if k < i then k else k + 1;
    MinusAt(c, i, k);
    ChainAt(next, prev, c, i);
    ChainAt(next, prev, c, j);
    ChainApart(next, prev, c, j, i - 1);
    ChainApart(next, prev, c, j, i + 1);
    hide Chain, Minus;
  }

  lemma ChainAt(next: seq<int>, prev: seq<int>, c: seq<int>, i: int)
    requires |next| == |prev| && Chain(if c == [] then NULL else c[0], next, prev, c) && 0 <= i < |c|
    ensures 0 <= c[i] < |next| && next[c[i]] == After(c, i, NULL) && prev[c[i]] == Before(c, i, NULL)
  {
  }

  lemma ChainApart(next: seq<int>, prev: seq<int>, c: seq<int>, i: int, j: int)
    requires |next| == |prev| && Chain(if c == [] then NULL else c[0], next, prev, c) && 0 <= i < |c|
    ensures 0 <= j < |c| ==> 0 <= c[j] < |next| && (c[i] == c[j] ==> i == j)
  {
    assert 0 <= j < |c| ==> (Clash(c, i, j) <==> c[i] == c[j]);
  }

  lemma MinusAt(c: seq<int>, i: int, k: int)
    requires 0 <= i < |c| && 0 <= k < |c| - 1
    ensures |Minus(c, i)| == |c| - 1 && Minus(c, i)[k] == c[if k < i then k else k + 1]
    ensures k + 1 < |c| - 1 ==> Minus(c, i)[k + 1] == c[if k + 1 < i then k + 1 else k + 2]
    ensures k > 0 ==> Minus(c, i)[k - 1] == c[if k - 1 < i then k - 1 else k]
  {
  }

  /** The pointer assignments that take the i-th buffer out of a chain. */
  lemma UnlinkChain(head: int, next: seq<int>, prev: seq<int>, c: seq<int>, i: int, head': int, next': seq<int>,
      prev': seq<int>)
    requires |next| == |prev| && Chain(head, next, prev, c) && 0 <= i < |c|
    requires head' == if i == 0 then next[c[i]] else head
    requires next' == Put(next, prev[c[i]], next[c[i]])
    requires prev' == Put(prev, next[c[i]], prev[c[i]])
    ensures Chain(head', next', prev', Minus(c, i))
    ensures forall x :: 0 <= x < |next| && x !in c ==> next'[x] == next[x] && prev'[x] == prev[x]
  {
    var d := Minus(c, i);
    DistinctMinus(c, i);
    forall k | 0 <= k < |d|
      ensures 0 <= d[k] < |next'| && next'[d[k]] == After(d, k, NULL) && prev'[d[k]] == Before(d, k, NULL)
    {
      UnlinkChainAt(next, prev, c, i, k);
    }
    UnlinkFrame(next, prev, c, i);
  }

  lemma UnlinkFrame(next: seq<int>, prev: seq<int>, c: seq<int>, i: int)
    requires |next| == |prev| && Chain(if c == [] then NULL else c[0], next, prev, c) && 0 <= i < |c|
    ensures next[c[i]] == NULL || next[c[i]] in c
    ensures prev[c[i]] == NULL || prev[c[i]] in c
    ensures i == 0 ==> next[c[i]] == if |c| == 1 then NULL else c[1]
  {
    assert prev[c[i]] == Before(c, i, NULL) && next[c[i]] == After(c, i, NULL);
  }

  lemma UnlinkRingNext(next: seq<int>, prev: seq<int>, r: seq<int>, i: int, k: int)
    requires |next| == |prev| && r != [] && Ring(r[0], next, prev, r) && 0 <= i < |r| && 0 <= k < |r| - 1
    ensures var d := Minus(r, i); 0 <= d[k] < |next| && Put(next, prev[r[i]], next[r[i]])[d[k]] == After(d, k, d[0])
  {
    var n := |r|;
    var j := if k < i then k else k + 1;
    MinusAt(r, i, k);
    MinusAt(r, i, 0);
    RingAt(next, prev, r, i);
    RingAt(next, prev, r, j);
    RingApart(next, prev, r, j, if 0 < i then i - 1 else n - 1);
    hide Ring, Minus;
  }

  lemma UnlinkRingPrev(next: seq<int>, prev: seq<int>, r: seq<int>, i: int, k: int)
    requires |next| == |prev| && r != [] && Ring(r[0], next, prev, r) && 0 <= i < |r| && 0 <= k < |r| - 1
    ensures var d := Minus(r, i);
      0 <= d[k] < |next| && Put(prev, next[r[i]], prev[r[i]])[d[k]] == Before(d, k, d[|d| - 1])
  {
    var n := |r|;
    var j := if k < i then k else k + 1;
    MinusAt(r, i, k);
    MinusAt(r, i, n - 2);
    RingAt(next, prev, r, i);
    RingAt(next, prev, r, j);
    RingApart(next, prev, r, j, if i + 1 < n then i + 1 else 0);
    hide Ring, Minus;
  }

  lemma RingAt(next: seq<int>, prev: seq<int>, r: seq<int>, i: int)
    requires |next| == |prev| && r != [] && Ring(r[0], next, prev, r) && 0 <= i < |r|
    ensures 0 <= r[i] < |next| && next[r[i]] == After(r, i, r[0]) && prev[r[i]] == Before(r, i, r[|r| - 1])
  {
  }

  lemma RingApart(next: seq<int>, prev: seq<int>, r: seq<int>, i: int, j: int)
    requires |next| == |prev| && r != [] && Ring(r[0], next, prev, r) && 0 <= i < |r| && 0 <= j < |r|
    ensures r[i] == r[j] ==> i == j
  {
    assert Clash(r, i, j) <==> r[i] == r[j];
  }

  lemma UnlinkRing(head: int, next: seq<int>, prev: seq<int>, r: seq<int>, i: int, head': int, next': seq<int>,
      prev': seq<int>)
    requires |next| == |prev| && Ring(head, next, prev, r) && 0 <= i < |r| && |r| >= 2
    requires next' == Put(next, prev[r[i]], next[r[i]])
    requires prev' == Put(prev, next[r[i]], prev[r[i]])
    requires head' == if head == r[i] then next[r[i]] else head
    ensures Ring(head', next', prev', Minus(r, i))
  {
    var d := Minus(r, i);
    DistinctMinus(r, i);
    forall k | 0 <= k < |d|
      ensures 0 <= d[k] < |next'| && next'[d[k]] == After(d, k, d[0]) && prev'[d[k]] == Before(d, k, d[|d| - 1])
    {
      UnlinkRingNext(next, prev, r, i, k);
      UnlinkRingPrev(next, prev, r, i, k);
    }
    assert next[r[i]] == After(r, i, r[0]);
    assert i != 0 ==> !Clash(r, i, 0);
  }

  /** The assignments that put a buffer at the front of a chain. */
  lemma LinkChain(head: int, next: seq<int>, prev: seq<int>, c: seq<int>, b: int, next': seq<int>, prev': seq<int>)
    requires |next| == |prev| && Chain(head, next, prev, c) && 0 <= b < |next| && b !in c
    requires next' == Put(next, b, head)
    requires prev' == Put(Put(prev, b, NULL), head, b)
    ensures Chain(b, next', prev', [b] + c)
    ensures forall x :: 0 <= x < |next| && x !in c && x != b ==> next'[x] == next[x] && prev'[x] == prev[x]
  {
    var d := [b] + c;
    DistinctCons(c, b);
    forall k | 0 <= k < |d|
      ensures next'[d[k]] == After(d, k, NULL)
      ensures prev'[d[k]] == Before(d, k, NULL)
    {
      if k > 0 {
        assert d[k] == c[k - 1] && c[k - 1] in c;
        assert next[c[k - 1]] == if k < |c| then c[k] else NULL;
        assert prev[c[k - 1]] == if 1 < k then c[k - 2] else NULL;
        assert k > 1 ==> !Clash(c, k - 1, 0);
      }
    }
  }

  /** ... and at the end of the ring. */
  lemma LinkRing(head: int, next: seq<int>, prev: seq<int>, r: seq<int>, b: int, next': seq<int>, prev': seq<int>)
    requires |next| == |prev| && Ring(head, next, prev, r) && 0 <= b < |next| && b !in r
    requires next' == Put(Put(next, b, head), prev[head], b)
    requires prev' == Put(Put(prev, b, prev[head]), head, b)
    ensures Ring(head, next', prev', r + [b])
  {
    var d := r + [b];
    DistinctCons(r, b);
    forall k | 0 <= k < |d|
      ensures 0 <= d[k] < |next| && next'[d[k]] == After(d, k, d[0]) && prev'[d[k]] == Before(d, k, d[|d| - 1])
    {
      LinkRingNext(next, prev, r, b, k);
      LinkRingPrev(next, prev, r, b, k);
    }
  }

  lemma PutPutAt(s: seq<int>, p: int, v: int, q: int, w: int, x: int)
    requires 0 <= p < |s| && 0 <= q < |s| && 0 <= x < |s|
    ensures Put(Put(s, p, v), q, w)[x] == if x == q then w else if x == p then v else s[x]
  {
  }

  lemma RingEnds(next: seq<int>, prev: seq<int>, r: seq<int>, b: int, k: int)
    requires |next| == |prev| && r != [] && Ring(r[0], next, prev, r) && 0 <= b < |next| && b !in r && 0 <= k <= |r|
    ensures 0 <= r[0] < |next| && prev[r[0]] == r[|r| - 1] && 0 <= r[|r| - 1] < |next| && r[0] != b && r[|r| - 1] != b
    ensures k < |r| ==> 0 <= r[k] < |next| && r[k] != b
    ensures k < |r| ==> (r[k] == r[0] ==> k == 0) && (r[k] == r[|r| - 1] ==> k == |r| - 1)
    ensures k < |r| ==> next[r[k]] == After(r, k, r[0]) && prev[r[k]] == Before(r, k, r[|r| - 1])
  {
    assert r[0] in r && r[|r| - 1] in r && (k < |r| ==> r[k] in r);
    if k < |r| {
      RingApart(next, prev, r, k, 0);
      RingApart(next, prev, r, k, |r| - 1);
    }
  }

  lemma LinkRingNext(next: seq<int>, prev: seq<int>, r: seq<int>, b: int, k: int)
    requires |next| == |prev| && r != [] && Ring(r[0], next, prev, r) && 0 <= b < |next| && b !in r && 0 <= k <= |r|
    ensures var d := r + [b];
      0 <= d[k] < |next| && 0 <= r[0] < |next| && Put(Put(next, b, r[0]), prev[r[0]], b)[d[k]] == After(d, k, d[0])
  {
    RingEnds(next, prev, r, b, k);
    var n, x := |r|, if k < |r| then r[k] else b;
    PutPutAt(next, b, r[0], prev[r[0]], b, x);
    assert (r + [b])[k] == x && (r + [b])[0] == r[0] && (r + [b])[n] == b;
    assert k > 0 ==> (r + [b])[k - 1] == r[k - 1];
    assert k + 1 < n ==> (r + [b])[k + 1] == r[k + 1];
    hide Ring, Put;
  }

  lemma LinkRingPrev(next: seq<int>, prev: seq<int>, r: seq<int>, b: int, k: int)
    requires |next| == |prev| && r != [] && Ring(r[0], next, prev, r) && 0 <= b < |next| && b !in r && 0 <= k <= |r|
    ensures var d := r + [b]; var p := Put(Put(prev, b, prev[r[0]]), r[0], b);
      0 <= d[k] < |next| && 0 <= r[0] < |next| && p[d[k]] == Before(d, k, d[|d| - 1])
  {
    RingEnds(next, prev, r, b, k);
    var n, x := |r|, if k < |r| then r[k] else b;
    PutPutAt(prev, b, prev[r[0]], r[0], b, x);
    assert (r + [b])[k] == x && (r + [b])[0] == r[0] && (r + [b])[n] == b;
    assert k > 0 ==> (r + [b])[k - 1] == r[k - 1];
    assert k + 1 < n ==> (r + [b])[k + 1] == r[k + 1];
    hide Ring, Put;
  }

  /** A chain is untouched by changes to buffers outside it. */
  lemma ChainFrame(head: int, next: seq<int>, prev: seq<int>, next': seq<int>, prev': seq<int>, c: seq<int>)
    requires |next| == |prev| == |next'| == |prev'| && Chain(head, next, prev, c)
    requires forall x :: x in c ==> next'[x] == next[x] && prev'[x] == prev[x]
    ensures Chain(head, next', prev', c)
  {
  }

  const NR_HASH: int := 307

  /** Exclusive or, bit by bit. */
  function Xor(a: nat, b: nat): nat {
    if a == 0 && b == 0 then 0 else (a + b) % 2 + 2 * Xor(a / 2, b / 2)
  }

  function Hashfn(dev: nat, block: nat): (h: int)
    ensures 0 <= h < NR_HASH
  {
    Xor(dev, block) % NR_HASH
  }

  datatype Head = Head(dev: nat, block: nat, count: nat, dirty: bool, lock: bool,
                       next: int, prev: int, nextFree: int, prevFree: int)

  function Nexts(s: seq<Head>): (r: seq<int>)
    ensures |r| == |s|
  {
    seq(|s|, i requires 0 <= i < |s| => s[i].next)
  }

  function Prevs(s: seq<Head>): (r: seq<int>)
    ensures |r| == |s|
  {
    seq(|s|, i requires 0 <= i < |s| => s[i].prev)
  }

  function NextFrees(s: seq<Head>): (r: seq<int>)
    ensures |r| == |s|
  {
    seq(|s|, i requires 0 <= i < |s| => s[i].nextFree)
  }

  function PrevFrees(s: seq<Head>): (r: seq<int>)
    ensures |r| == |s|
  {
    seq(|s|, i requires 0 <= i < |s| => s[i].prevFree)
  }

  function Badness(x: Head): int {
    (if x.dirty then 2 else 0) + (if x.lock then 1 else 0)
  }

  /** The hash table agrees with the keys: buffer x is in the chain of its bucket
      exactly when it has a device; `out` is in no chain. */
  ghost predicate ChainsOk(bh: seq<Head>, hash: seq<int>, chains: seq<seq<int>>, out: int) {
    && |hash| == |chains| == NR_HASH
    && (forall h :: 0 <= h < NR_HASH ==> Chain(hash[h], Nexts(bh), Prevs(bh), chains[h]))
    && (forall h, x {:trigger x in chains[h]} ::
          0 <= h < NR_HASH && x in chains[h] ==>
            0 <= x < |bh| && x != out && bh[x].dev != 0 && Hashfn(bh[x].dev, bh[x].block) == h)
    && (forall x :: 0 <= x < |bh| && x != out && bh[x].dev != 0 ==> x in chains[Hashfn(bh[x].dev, bh[x].block)])
    && (forall x :: 0 <= x < |bh| && x != out && bh[x].dev == 0 ==> bh[x].next == bh[x].prev == NULL)
  }

  ghost predicate RingOk(bh: seq<Head>, free: int, ring: seq<int>, out: int) {
    && Ring(free, NextFrees(bh), PrevFrees(bh), ring)
    && out !in ring && (forall x :: 0 <= x < |bh| && x != out ==> x in ring)
  }

  lemma UnlinkKeepsChains(bh: seq<Head>, hash: seq<int>, chains: seq<seq<int>>, b: int, i: int,
                          bh': seq<Head>, hash': seq<int>)
    requires ChainsOk(bh, hash, chains, NULL) && 0 <= b < |bh| && bh[b].dev != 0
    requires 0 <= i < |chains[Hashfn(bh[b].dev, bh[b].block)]| && chains[Hashfn(bh[b].dev, bh[b].block)][i] == b
    requires |bh'| == |bh| && SameHeads(bh, bh')
    requires Nexts(bh') == Put(Nexts(bh), bh[b].prev, bh[b].next)
      && Prevs(bh') == Put(Prevs(bh), bh[b].next, bh[b].prev)
    requires var h := Hashfn(bh[b].dev, bh[b].block); hash' == if hash[h] == b then hash[h := bh[b].next] else hash
    ensures var h := Hashfn(bh[b].dev, bh[b].block); ChainsOk(bh', hash', chains[h := Minus(chains[h], i)], b)
  {
    hide Xor, Distinct, Put, Chain;
    var h := Hashfn(bh[b].dev, bh[b].block);
    var chains' := chains[h := Minus(chains[h], i)];
    UnlinkOneChain(bh, hash, chains, b, i, bh', hash');
    forall g | 0 <= g < NR_HASH && g != h
      ensures Chain(hash'[g], Nexts(bh'), Prevs(bh'), chains'[g])
    {
      forall x | x in chains[g]
        ensures 0 <= x < |bh| && x !in chains[h]
      {
        assert Hashfn(bh[x].dev, bh[x].block) == g;
      }
      ChainFrame(hash[g], Nexts(bh), Prevs(bh), Nexts(bh'), Prevs(bh'), chains[g]);
    }
    NoDeviceNoChain(bh, bh', chains[h], b);
  }

  lemma NoDeviceNoChain(bh: seq<Head>, bh': seq<Head>, c: seq<int>, b: int)
    requires |bh'| == |bh| && SameHeads(bh, bh')
    requires forall x :: 0 <= x < |bh| && x in c ==> bh[x].dev != 0
    requires forall x :: 0 <= x < |bh| && x != b && bh[x].dev == 0 ==> bh[x].next == bh[x].prev == NULL
    requires forall x ::
               0 <= x < |bh| && x !in c && x != b ==> Nexts(bh')[x] == Nexts(bh)[x] && Prevs(bh')[x] == Prevs(bh)[x]
    ensures forall x :: 0 <= x < |bh'| && x != b && bh'[x].dev == 0 ==> bh'[x].next == bh'[x].prev == NULL
  {
    forall x | 0 <= x < |bh'| && x != b && bh'[x].dev == 0
      ensures bh'[x].next == bh'[x].prev == NULL
    {
      assert Nexts(bh')[x] == Nexts(bh)[x] && Prevs(bh')[x] == Prevs(bh)[x];
    }
  }

  lemma UnlinkOneChain(bh: seq<Head>, hash: seq<int>, chains: seq<seq<int>>, b: int, i: int, bh': seq<Head>,
      hash': seq<int>)
    requires ChainsOk(bh, hash, chains, NULL) && 0 <= b < |bh| && bh[b].dev != 0
    requires 0 <= i < |chains[Hashfn(bh[b].dev, bh[b].block)]| && chains[Hashfn(bh[b].dev, bh[b].block)][i] == b
    requires |bh'| == |bh|
    requires Nexts(bh') == Put(Nexts(bh), bh[b].prev, bh[b].next)
      && Prevs(bh') == Put(Prevs(bh), bh[b].next, bh[b].prev)
    requires var h := Hashfn(bh[b].dev, bh[b].block); hash' == if hash[h] == b then hash[h := bh[b].next] else hash
    ensures var h := Hashfn(bh[b].dev, bh[b].block);
      && Chain(hash'[h], Nexts(bh'), Prevs(bh'), Minus(chains[h], i))
      && (forall x ::
            0 <= x < |bh| && x !in chains[h] ==> Nexts(bh')[x] == Nexts(bh)[x] && Prevs(bh')[x] == Prevs(bh)[x])
      && (forall x :: x in Minus(chains[h], i) <==> x in chains[h] && x != b)
  {
    hide Xor, Hashfn, Put;
    var h := Hashfn(bh[b].dev, bh[b].block);
    var c := chains[h];
    assert Chain(hash[h], Nexts(bh), Prevs(bh), c);
    assert Nexts(bh)[b] == bh[b].next && Prevs(bh)[b] == bh[b].prev;
    assert i != 0 ==> !Clash(c, i, 0);
    DistinctMinus(c, i);
    UnlinkChain(hash[h], Nexts(bh), Prevs(bh), c, i, hash'[h], Nexts(bh'), Prevs(bh'));
  }

  /** Only pointers changed. */
  ghost predicate SameHeads(bh: seq<Head>, bh': seq<Head>)
    requires |bh| == |bh'|
  {
    forall x :: 0 <= x < |bh| ==>
      && bh'[x].dev == bh[x].dev && bh'[x].block == bh[x].block
      && bh'[x].count == bh[x].count && bh'[x].dirty == bh[x].dirty && bh'[x].lock == bh[x].lock
  }

  lemma LinkKeepsChains(bh: seq<Head>, hash: seq<int>, chains: seq<seq<int>>, b: int,
                        bh': seq<Head>, hash': seq<int>)
    requires 0 <= b < |bh| && ChainsOk(bh, hash, chains, b) && bh[b].dev != 0
    requires |bh'| == |bh| && SameHeads(bh, bh')
    requires var h := Hashfn(bh[b].dev, bh[b].block);
      && Nexts(bh') == Put(Nexts(bh), b, hash[h]) && Prevs(bh') == Put(Put(Prevs(bh), b, NULL), hash[h], b)
      && hash' == hash[h := b]
    ensures var h := Hashfn(bh[b].dev, bh[b].block); ChainsOk(bh', hash', chains[h := [b] + chains[h]], NULL)
  {
    var h := Hashfn(bh[b].dev, bh[b].block);
    LinkChain(hash[h], Nexts(bh), Prevs(bh), chains[h], b, Nexts(bh'), Prevs(bh'));
    var chains' := chains[h := [b] + chains[h]];
    hide Chain, Hashfn;
    forall g | 0 <= g < NR_HASH && g != h
      ensures Chain(hash'[g], Nexts(bh'), Prevs(bh'), chains'[g])
    {
      ChainFrame(hash[g], Nexts(bh), Prevs(bh), Nexts(bh'), Prevs(bh'), chains[g]);
    }
    forall x | 0 <= x < |bh'| && bh'[x].dev == 0
      ensures bh'[x].next == bh'[x].prev == NULL
    {
      assert x !in chains[h];
      assert Nexts(bh')[x] == Nexts(bh)[x] && Prevs(bh')[x] == Prevs(bh)[x];
    }
    forall x | 0 <= x < |bh'| && bh'[x].dev != 0
      ensures x in chains'[Hashfn(bh'[x].dev, bh'[x].block)]
    {
    }
  }

  class Buffers {
    const bh: array<Head>
    const hash: array<int>
    var freeList: int
    ghost var chains: seq<seq<int>>
    ghost var ring: seq<int>

    /** All buffers but `out` are linked. */
    ghost predicate Linked(out: int)
      reads this, bh, hash
    {
      && 2 <= bh.Length
      && ChainsOk(bh[..], hash[..], chains, out)
      && RingOk(bh[..], freeList, ring, out)
    }

    ghost predicate Valid()
      reads this, bh, hash
    {
      Linked(NULL)
    }

    /** buffer_init: n unused buffers, in a ring in order, in no hash chain. */
    constructor (n: nat)
      requires 2 <= n
      ensures Valid() && bh.Length == n && ring == seq(n, i => i)
      ensures forall x :: 0 <= x < n ==> bh[x].dev == 0 && bh[x].count == 0 && !bh[x].dirty && !bh[x].lock
    {
      bh := new Head[n](i => Unused(n, i));
      hash := new int[NR_HASH](_ => NULL);
      freeList := 0;
      chains := seq(NR_HASH, _ => []);
      ring := seq(n, i => i);
      new;
      ghost var heads := bh[..];
      assert forall x :: 0 <= x < n ==> heads[x] == Unused(n, x);
      hide ChainsOk, RingOk;
      InitRing(heads);
      InitChains(heads, hash[..]);
    }

    method SetNext(p: int, v: int)
      requires p == NULL || 0 <= p < bh.Length
      modifies bh
      ensures Nexts(bh[..]) == Put(old(Nexts(bh[..])), p, v) && Prevs(bh[..]) == old(Prevs(bh[..]))
      ensures NextFrees(bh[..]) == old(NextFrees(bh[..])) && PrevFrees(bh[..]) == old(PrevFrees(bh[..]))
      ensures SameHeads(old(bh[..]), bh[..])
    {
      if p != NULL {
        bh[p] := bh[p].(next := v);
      }
    }

    method SetPrev(p: int, v: int)
      requires p == NULL || 0 <= p < bh.Length
      modifies bh
      ensures Nexts(bh[..]) == old(Nexts(bh[..])) && Prevs(bh[..]) == Put(old(Prevs(bh[..])), p, v)
      ensures NextFrees(bh[..]) == old(NextFrees(bh[..])) && PrevFrees(bh[..]) == old(PrevFrees(bh[..]))
      ensures SameHeads(old(bh[..]), bh[..])
    {
      if p != NULL {
        bh[p] := bh[p].(prev := v);
      }
    }

    method SetNextFree(p: int, v: int)
      requires 0 <= p < bh.Length
      modifies bh
      ensures Nexts(bh[..]) == old(Nexts(bh[..])) && Prevs(bh[..]) == old(Prevs(bh[..]))
      ensures NextFrees(bh[..]) == Put(old(NextFrees(bh[..])), p, v) && PrevFrees(bh[..]) == old(PrevFrees(bh[..]))
      ensures SameHeads(old(bh[..]), bh[..])
    {
      bh[p] := bh[p].(nextFree := v);
    }

    method SetPrevFree(p: int, v: int)
      requires 0 <= p < bh.Length
      modifies bh
      ensures Nexts(bh[..]) == old(Nexts(bh[..])) && Prevs(bh[..]) == old(Prevs(bh[..]))
      ensures NextFrees(bh[..]) == old(NextFrees(bh[..])) && PrevFrees(bh[..]) == Put(old(PrevFrees(bh[..])), p, v)
      ensures SameHeads(old(bh[..]), bh[..])
    {
      bh[p] := bh[p].(prevFree := v);
    }

    /** remove_from_queues, the hash half. */
    method RemoveFromHash(b: int)
      requires ChainsOk(bh[..], hash[..], chains, NULL) && 0 <= b < bh.Length
      modifies bh, hash, `chains
      ensures ChainsOk(bh[..], hash[..], chains, b)
      ensures SameHeads(old(bh[..]), bh[..])
      ensures NextFrees(bh[..]) == old(NextFrees(bh[..])) && PrevFrees(bh[..]) == old(PrevFrees(bh[..]))
    {
      hide Ring, Distinct, Chain, Xor, Hashfn, ChainsOk, Nexts, Prevs, NextFrees, PrevFrees, Put;
      ghost var was, table := bh[..], hash[..];
      var next, prev := bh[b].next, bh[b].prev;
      var h := Hashfn(bh[b].dev, bh[b].block);
      assert was[b] == bh[b];
      Neighbours(was, table, chains, b);
      SetPrev(next, prev);
      SetNext(prev, next);
      if hash[h] == b {
        hash[h] := next;
      }
      if was[b].dev != 0 {
        InItsChain(was, table, chains, b);
        ghost var i :| 0 <= i < |chains[h]| && chains[h][i] == b;
        UnlinkKeepsChains(was, table, chains, b, i, bh[..], hash[..]);
        chains := chains[h := Minus(chains[h], i)];
      } else {
        NotInChain(was, table, chains, b, bh[..]);
        assert hash[..] == table;
      }
    }

    /** remove_from_queues, the victims' half. */
    method RemoveFromFree(b: int, ghost i: int)
      requires 2 <= bh.Length && RingOk(bh[..], freeList, ring, NULL) && 0 <= i < |ring| && ring[i] == b
      modifies bh, `freeList, `ring
      ensures RingOk(bh[..], freeList, ring, b) && ring == Minus(old(ring), i)
      ensures SameHeads(old(bh[..]), bh[..])
      ensures Nexts(bh[..]) == old(Nexts(bh[..])) && Prevs(bh[..]) == old(Prevs(bh[..]))
    {
      hide Nexts, Prevs, NextFrees, PrevFrees, Distinct, Put, Ring, RingOk;
      ghost var was := bh[..];
      RingFacts(was, freeList, ring, i);
      var next, prev := bh[b].nextFree, bh[b].prevFree;
      assert was[b] == bh[b];
      SetNextFree(prev, next);
      SetPrevFree(next, prev);
      UnlinkKeepsRing(was, freeList, ring, i, bh[..]);
      if freeList == b {
        freeList := next;
      }
      ring := Minus(ring, i);
    }

    /** insert_into_queues, the victims' half: at the end of the ring. */
    method InsertIntoFree(b: int)
      requires RingOk(bh[..], freeList, ring, b) && 0 <= b < bh.Length
      modifies bh, `ring
      ensures RingOk(bh[..], freeList, ring, NULL) && ring == old(ring) + [b]
      ensures SameHeads(old(bh[..]), bh[..])
      ensures Nexts(bh[..]) == old(Nexts(bh[..])) && Prevs(bh[..]) == old(Prevs(bh[..]))
    {
      hide Distinct, Nexts, Prevs, NextFrees, PrevFrees, Put, Ring, RingOk;
      ghost var was := bh[..];
      RingHead(was, freeList, ring, b);
      var last := bh[freeList].prevFree;
      assert was[freeList] == bh[freeList];
      SetNextFree(b, freeList);
      SetPrevFree(b, last);
      SetNextFree(last, b);
      SetPrevFree(freeList, b);
      LinkKeepsRing(was, freeList, ring, b, bh[..]);
      ring := ring + [b];
    }

    /** insert_into_queues, the hash half: at the front of its chain, if the buffer
        has a device.  The store through b_next is guarded against NULL. */
    method InsertIntoHash(b: int)
      requires ChainsOk(bh[..], hash[..], chains, b) && 0 <= b < bh.Length
      modifies bh, hash, `chains
      ensures ChainsOk(bh[..], hash[..], chains, NULL)
      ensures SameHeads(old(bh[..]), bh[..])
      ensures NextFrees(bh[..]) == old(NextFrees(bh[..])) && PrevFrees(bh[..]) == old(PrevFrees(bh[..]))
    {
      hide Distinct, Chain, Xor, Hashfn, Nexts, Prevs, NextFrees, PrevFrees, Put, ChainsOk;
      ghost var was, table := bh[..], hash[..];
      SetPrev(b, NULL);
      SetNext(b, NULL);
      assert bh[b].dev == was[b].dev && bh[b].block == was[b].block;
      if bh[b].dev == 0 {
        NoDeviceLinked(was, bh[..], table, chains, b);
        return;
      }
      var h := Hashfn(bh[b].dev, bh[b].block);
      HeadInRange(was, table, chains, b, h);
      SetNext(b, hash[h]);
      SetPrev(hash[h], b);
      hash[h] := b;
      PutTwice(Nexts(was), b, NULL, table[h]);
      LinkKeepsChains(was, table, chains, b, bh[..], hash[..]);
      chains := chains[h := [b] + chains[h]];
    }

    /** The end of getblk: buffer b leaves its queues, becomes (newDev, newBlock), and
        enters the queues of its new identity, last in line as a victim. */
    method Retarget(b: int, newDev: nat, newBlock: nat)
      requires Valid() && 0 <= b < bh.Length
      modifies this, bh, hash
      ensures Valid()
      ensures exists i :: 0 <= i < |old(ring)| && old(ring)[i] == b && ring == Minus(old(ring), i) + [b]
      ensures forall x :: 0 <= x < bh.Length ==>
        bh[x].dev == (if x == b then newDev else old(bh[x].dev))
          && bh[x].block == (if x == b then newBlock else old(bh[x].block))
    {
      hide Distinct, Chain, Xor, Hashfn, Nexts, Prevs, NextFrees, PrevFrees, Ring, ChainsOk;
      assert b in ring;
      ghost var i :| 0 <= i < |ring| && ring[i] == b;
      ghost var m0 := bh[..];
      RemoveFromHash(b);
      RingSame(m0, bh[..], freeList, ring, NULL);
      ghost var m1 := bh[..];
      RemoveFromFree(b, i);
      ChainsSame(m1, bh[..], hash[..], chains, b);
      ghost var m2 := bh[..];
      bh[b] := bh[b].(dev := newDev, block := newBlock);
      Renamed(m2, bh[..], hash[..], chains, b);
      RingSame(m2, bh[..], freeList, ring, b);
      ghost var m3 := bh[..];
      InsertIntoFree(b);
      ChainsSame(m3, bh[..], hash[..], chains, b);
      ghost var m4 := bh[..];
      InsertIntoHash(b);
      RingSame(m4, bh[..], freeList, ring, NULL);
      assert forall x :: 0 <= x < bh.Length ==> bh[x].dev == m3[x].dev && bh[x].block == m3[x].block;
    }

    /** find_buffer: walks one hash chain; finds the buffer exactly when there is one. */
    method FindBuffer(dev: nat, block: nat) returns (r: int)
      requires Valid() && dev != 0
      ensures r == NULL ==> forall x :: 0 <= x < bh.Length ==> bh[x].dev != dev || bh[x].block != block
      ensures r != NULL ==> 0 <= r < bh.Length && bh[r].dev == dev && bh[r].block == block
    {
      hide Distinct, Xor, Hashfn, RingOk, Chain, ChainsOk;
      var h := Hashfn(dev, block);
      ChainStart(bh[..], hash[..], chains, h);
      ghost var c := chains[h];
      ghost var i := 0;
      r := hash[h];
      while r != NULL
        invariant 0 <= i <= |c| && r == (if i < |c| then c[i] else NULL)
        invariant forall x :: x in c[..i] ==> !IsKey(bh[..], x, dev, block)
        decreases |c| - i
      {
        ChainStep(bh[..], hash[..], chains, h, i);
        assert bh[..][r] == bh[r];
        if bh[r].dev == dev && bh[r].block == block {
          return;
        }
        assert c[..i + 1] == c[..i] + [c[i]];
        r, i := bh[r].next, i + 1;
      }
      assert c[..i] == c;
      forall x | 0 <= x < bh.Length
        ensures bh[x].dev != dev || bh[x].block != block
      {
        assert bh[..][x] == bh[x];
        if bh[x].dev != 0 {
          InItsChain(bh[..], hash[..], chains, x);
        }
        assert bh[x].dev == dev && bh[x].block == block ==> x in c && IsKey(bh[..], x, dev, block);
      }
    }

    /** The do-while scan of getblk over the ring: the first buffer without users and
        of least badness, stopping early at badness 0; NULL if all are in use. */
    method PickVictim() returns (r: int)
      requires Valid()
      ensures r == NULL ==> forall x :: 0 <= x < bh.Length ==> bh[x].count != 0
      ensures r != NULL ==> 0 <= r < bh.Length && bh[r].count == 0
      ensures r != NULL ==> forall x :: 0 <= x < bh.Length && bh[x].count == 0 ==> Badness(bh[r]) <= Badness(bh[x])
    {
      hide Xor, Hashfn, ChainsOk, Ring, RingOk, Distinct, Badness;
      r := NULL;
      RingStart(bh[..], freeList, ring);
      var tmp := freeList;
      ghost var i := 0;
      while true
        invariant 0 <= i < |ring| && tmp == ring[i] && forall j :: 0 <= j < |ring| ==> 0 <= ring[j] < bh.Length
        invariant r == NULL ==> forall j :: 0 <= j < i ==> bh[ring[j]].count != 0
        invariant r != NULL ==> 0 <= r < bh.Length && bh[r].count == 0
        invariant r != NULL ==> forall j ::
          0 <= j < i && bh[ring[j]].count == 0 ==> Badness(bh[r]) <= Badness(bh[ring[j]])
        decreases |ring| - i
      {
        RingStep(bh[..], freeList, ring, i);
        assert bh[..][tmp] == bh[tmp];
        if bh[tmp].count == 0 && (r == NULL || Badness(bh[tmp]) < Badness(bh[r])) {
          r := tmp;
          if Badness(bh[tmp]) == 0 {
            BadnessNat(bh[..]);
            return;
          }
        }
        tmp := bh[tmp].nextFree;
        if tmp == freeList {
          break;
        }
        i := i + 1;
      }
      forall x | 0 <= x < bh.Length
        ensures r == NULL ==> bh[x].count != 0
        ensures r != NULL && bh[x].count == 0 ==> Badness(bh[r]) <= Badness(bh[x])
      {
        RingCovers(bh[..], freeList, ring, x);
        ghost var j :| 0 <= j < |ring| && ring[j] == x;
      }
    }
  }

  lemma BadnessNat(bh: seq<Head>)
    ensures forall x :: 0 <= x < |bh| ==> 0 <= Badness(bh[x])
  {
  }

  lemma RingStart(bh: seq<Head>, free: int, ring: seq<int>)
    requires RingOk(bh, free, ring, NULL)
    ensures ring != [] && free == ring[0] && forall j :: 0 <= j < |ring| ==> 0 <= ring[j] < |bh|
  {
  }

  lemma RingCovers(bh: seq<Head>, free: int, ring: seq<int>, x: int)
    requires RingOk(bh, free, ring, NULL) && 0 <= x < |bh|
    ensures x in ring
  {
  }

  lemma RingStep(bh: seq<Head>, free: int, ring: seq<int>, i: int)
    requires RingOk(bh, free, ring, NULL) && 0 <= i < |ring| && 0 <= ring[i] < |bh|
    ensures bh[ring[i]].nextFree == if i + 1 < |ring| then ring[i + 1] else free
    ensures i + 1 < |ring| ==> ring[i + 1] != free
  {
    assert NextFrees(bh)[ring[i]] == After(ring, i, ring[0]);
    assert i + 1 < |ring| ==> !Clash(ring, 0, i + 1);
  }

  ghost predicate IsKey(bh: seq<Head>, x: int, dev: nat, block: nat) {
    0 <= x < |bh| && bh[x].dev == dev && bh[x].block == block
  }

  lemma ChainStart(bh: seq<Head>, hash: seq<int>, chains: seq<seq<int>>, h: int)
    requires ChainsOk(bh, hash, chains, NULL) && 0 <= h < NR_HASH
    ensures |hash| == |chains| == NR_HASH && hash[h] == if chains[h] == [] then NULL else chains[h][0]
    ensures forall j :: 0 <= j < |chains[h]| ==> 0 <= chains[h][j] < |bh|
  {
    assert Chain(hash[h], Nexts(bh), Prevs(bh), chains[h]);
  }

  lemma ChainStep(bh: seq<Head>, hash: seq<int>, chains: seq<seq<int>>, h: int, i: int)
    requires ChainsOk(bh, hash, chains, NULL) && 0 <= h < NR_HASH && 0 <= i < |chains[h]|
    ensures 0 <= chains[h][i] < |bh|
    ensures bh[chains[h][i]].next == if i + 1 < |chains[h]| then chains[h][i + 1] else NULL
  {
    assert Chain(hash[h], Nexts(bh), Prevs(bh), chains[h]);
    assert Nexts(bh)[chains[h][i]] == After(chains[h], i, NULL);
  }

  lemma LinkKeepsRing(bh: seq<Head>, free: int, ring: seq<int>, b: int, bh': seq<Head>)
    requires RingOk(bh, free, ring, b) && 0 <= b < |bh| == |bh'| && 0 <= free < |bh|
    requires NextFrees(bh') == Put(Put(NextFrees(bh), b, free), bh[free].prevFree, b)
    requires PrevFrees(bh') == Put(Put(PrevFrees(bh), b, bh[free].prevFree), free, b)
    ensures RingOk(bh', free, ring + [b], NULL)
  {
    assert PrevFrees(bh)[free] == bh[free].prevFree;
    LinkRing(free, NextFrees(bh), PrevFrees(bh), ring, b, NextFrees(bh'), PrevFrees(bh'));
    assert forall x :: 0 <= x < |bh| && x != b ==> x in ring;
  }

  lemma RingSame(bh: seq<Head>, bh': seq<Head>, free: int, ring: seq<int>, out: int)
    requires RingOk(bh, free, ring, out) && |bh'| == |bh| && NextFrees(bh') == NextFrees(bh)
      && PrevFrees(bh') == PrevFrees(bh)
    ensures RingOk(bh', free, ring, out)
  {
  }

  lemma ChainsSame(bh: seq<Head>, bh': seq<Head>, hash: seq<int>, chains: seq<seq<int>>, b: int)
    requires ChainsOk(bh, hash, chains, b) && |bh'| == |bh| && SameHeads(bh, bh')
    requires Nexts(bh') == Nexts(bh) && Prevs(bh') == Prevs(bh)
    ensures ChainsOk(bh', hash, chains, b)
  {
    hide Xor, Hashfn, Chain;
    assert forall x :: 0 <= x < |bh| ==> Nexts(bh')[x] == Nexts(bh)[x] && Prevs(bh')[x] == Prevs(bh)[x];
    assert forall x :: 0 <= x < |bh| ==> bh'[x].next == Nexts(bh)[x] && bh'[x].prev == Prevs(bh)[x];
    assert forall x :: 0 <= x < |bh| ==> bh[x].next == Nexts(bh)[x] && bh[x].prev == Prevs(bh)[x];
  }

  /** The key of an unlinked buffer is free to change. */
  lemma Renamed(bh: seq<Head>, bh': seq<Head>, hash: seq<int>, chains: seq<seq<int>>, b: int)
    requires ChainsOk(bh, hash, chains, b) && |bh'| == |bh| && 0 <= b < |bh|
    requires forall x :: 0 <= x < |bh| && x != b ==> bh'[x] == bh[x]
    requires bh'[b].next == bh[b].next && bh'[b].prev == bh[b].prev && bh'[b].nextFree == bh[b].nextFree
      && bh'[b].prevFree == bh[b].prevFree
    ensures ChainsOk(bh', hash, chains, b) && NextFrees(bh') == NextFrees(bh) && PrevFrees(bh') == PrevFrees(bh)
  {
    hide Xor, Hashfn, Chain;
    assert Nexts(bh') == Nexts(bh) && Prevs(bh') == Prevs(bh);
  }

  /** Buffer i of n as buffer_init leaves it. */
  function Unused(n: int, i: int): Head {
    Head(0, 0, 0, false, false, NULL, NULL, if i == n - 1 then 0 else i + 1, if i == 0 then n - 1 else i - 1)
  }

  lemma InitLinks(bh: seq<Head>, ring: seq<int>)
    requires 2 <= |bh| == |ring| && (forall i :: 0 <= i < |ring| ==> ring[i] == i)
    requires forall x :: 0 <= x < |bh| ==> bh[x] == Unused(|bh|, x)
    ensures Ring(0, NextFrees(bh), PrevFrees(bh), ring)
  {
    var next, prev := NextFrees(bh), PrevFrees(bh);
    assert forall i, j :: Clash(ring, i, j) ==> i == j;
    forall i | 0 <= i < |ring|
      ensures next[ring[i]] == After(ring, i, ring[0]) && prev[ring[i]] == Before(ring, i, ring[|ring| - 1])
    {
      assert bh[ring[i]] == bh[i];
    }
  }

  lemma InitRing(bh: seq<Head>)
    requires 2 <= |bh|
    requires forall x :: 0 <= x < |bh| ==> bh[x] == Unused(|bh|, x)
    ensures RingOk(bh, 0, seq(|bh|, i => i), NULL)
  {
    var ring := seq(|bh|, i => i);
    InitLinks(bh, ring);
    forall x | 0 <= x < |bh|
      ensures x in ring
    {
      assert ring[x] == x;
    }
    assert NULL !in ring;
  }

  lemma InitChains(bh: seq<Head>, hash: seq<int>)
    requires |hash| == NR_HASH && forall h :: 0 <= h < NR_HASH ==> hash[h] == NULL
    requires forall x :: 0 <= x < |bh| ==> bh[x] == Unused(|bh|, x)
    ensures ChainsOk(bh, hash, seq(NR_HASH, _ => []), NULL)
  {
  }

  lemma PutTwice(s: seq<int>, p: int, v: int, w: int)
    ensures Put(Put(s, p, v), p, w) == Put(s, p, w)
  {
  }

  lemma RingFacts(bh: seq<Head>, free: int, ring: seq<int>, i: int)
    requires 2 <= |bh| && RingOk(bh, free, ring, NULL) && 0 <= i < |ring|
    ensures |ring| >= 2
    ensures var b := ring[i];
      && 0 <= b < |bh| && 0 <= bh[b].nextFree < |bh| && 0 <= bh[b].prevFree < |bh|
      && NextFrees(bh)[b] == bh[b].nextFree && PrevFrees(bh)[b] == bh[b].prevFree
  {
    assert 0 in ring && 1 in ring;
    var b := ring[i];
    assert NextFrees(bh)[b] == After(ring, i, ring[0]) && PrevFrees(bh)[b] == Before(ring, i, ring[|ring| - 1]);
  }

  lemma UnlinkKeepsRing(bh: seq<Head>, free: int, ring: seq<int>, i: int, bh': seq<Head>)
    requires 2 <= |ring| && RingOk(bh, free, ring, NULL) && 0 <= i < |ring| && 0 <= ring[i] < |bh| == |bh'|
    requires NextFrees(bh') == Put(NextFrees(bh), bh[ring[i]].prevFree, bh[ring[i]].nextFree)
    requires PrevFrees(bh') == Put(PrevFrees(bh), bh[ring[i]].nextFree, bh[ring[i]].prevFree)
    ensures RingOk(bh', if free == ring[i] then bh[ring[i]].nextFree else free, Minus(ring, i), ring[i])
  {
    var b := ring[i];
    var head := if free == b then bh[b].nextFree else free;
    UnlinkRing(free, NextFrees(bh), PrevFrees(bh), ring, i, head, NextFrees(bh'), PrevFrees(bh'));
    DistinctMinus(ring, i);
  }

  lemma HeadInRange(bh: seq<Head>, hash: seq<int>, chains: seq<seq<int>>, b: int, h: int)
    requires ChainsOk(bh, hash, chains, b) && 0 <= h < NR_HASH
    ensures |hash| == |chains| == NR_HASH && (hash[h] == NULL || 0 <= hash[h] < |bh|)
  {
    assert Chain(hash[h], Nexts(bh), Prevs(bh), chains[h]);
  }

  lemma RingHead(bh: seq<Head>, free: int, ring: seq<int>, b: int)
    requires RingOk(bh, free, ring, b)
    ensures 0 <= free < |bh| && 0 <= bh[free].prevFree < |bh| && PrevFrees(bh)[free] == bh[free].prevFree
    ensures bh[free].prevFree != b && free != b
  {
    assert PrevFrees(bh)[ring[0]] == Before(ring, 0, ring[|ring| - 1]);
    assert ring[0] in ring && ring[|ring| - 1] in ring;
  }

  /** A buffer without a device is entered in no chain. */
  lemma NoDeviceLinked(bh: seq<Head>, bh': seq<Head>, hash: seq<int>, chains: seq<seq<int>>, b: int)
    requires ChainsOk(bh, hash, chains, b) && 0 <= b < |bh| && bh[b].dev == 0
    requires |bh'| == |bh| && SameHeads(bh, bh')
    requires Nexts(bh') == Put(Nexts(bh), b, NULL) && Prevs(bh') == Put(Prevs(bh), b, NULL)
    ensures ChainsOk(bh', hash, chains, NULL)
  {
    hide Xor, Chain;
    forall g | 0 <= g < NR_HASH
      ensures Chain(hash[g], Nexts(bh'), Prevs(bh'), chains[g])
    {
      assert forall x :: x in chains[g] ==> 0 <= x < |bh| && x != b;
      ChainFrame(hash[g], Nexts(bh), Prevs(bh), Nexts(bh'), Prevs(bh'), chains[g]);
    }
    assert Nexts(bh')[b] == NULL && Prevs(bh')[b] == NULL;
    forall x | 0 <= x < |bh'| && bh'[x].dev == 0
      ensures bh'[x].next == bh'[x].prev == NULL
    {
      assert Nexts(bh')[x] == (if x == b then NULL else Nexts(bh)[x]);
      assert Prevs(bh')[x] == (if x == b then NULL else Prevs(bh)[x]);
    }
  }

  lemma InItsChain(bh: seq<Head>, hash: seq<int>, chains: seq<seq<int>>, b: int)
    requires ChainsOk(bh, hash, chains, NULL) && 0 <= b < |bh| && bh[b].dev != 0
    ensures |chains| == |hash| == NR_HASH && b in chains[Hashfn(bh[b].dev, bh[b].block)]
  {
  }

  lemma Neighbours(bh: seq<Head>, hash: seq<int>, chains: seq<seq<int>>, b: int)
    requires ChainsOk(bh, hash, chains, NULL) && 0 <= b < |bh|
    ensures |hash| == NR_HASH
    ensures bh[b].next == NULL || 0 <= bh[b].next < |bh|
    ensures bh[b].prev == NULL || 0 <= bh[b].prev < |bh|
  {
    if bh[b].dev != 0 {
      InItsChain(bh, hash, chains, b);
      var h := Hashfn(bh[b].dev, bh[b].block);
      var c := chains[h];
      var i :| 0 <= i < |c| && c[i] == b;
      assert Chain(hash[h], Nexts(bh), Prevs(bh), c);
      assert Nexts(bh)[b] == After(c, i, NULL) && Prevs(bh)[b] == Before(c, i, NULL);
    }
  }

  lemma NotInChain(bh: seq<Head>, hash: seq<int>, chains: seq<seq<int>>, b: int, bh': seq<Head>)
    requires ChainsOk(bh, hash, chains, NULL) && 0 <= b < |bh| && bh[b].dev == 0
    requires |bh'| == |bh| && SameHeads(bh, bh') && Nexts(bh') == Put(Nexts(bh), bh[b].prev, bh[b].next)
      && Prevs(bh') == Put(Prevs(bh), bh[b].next, bh[b].prev)
    ensures forall h :: 0 <= h < NR_HASH ==> hash[h] != b
    ensures ChainsOk(bh', hash, chains, b)
  {
    hide Xor, Hashfn;
    assert Nexts(bh') == Nexts(bh) && Prevs(bh') == Prevs(bh);
    forall h | 0 <= h < NR_HASH
      ensures hash[h] != b
    {
      assert Chain(hash[h], Nexts(bh), Prevs(bh), chains[h]);
      assert b !in chains[h];
    }
    forall x | 0 <= x < |bh| && bh[x].dev == 0
      ensures bh'[x].next == bh'[x].prev == NULL
    {
      assert Nexts(bh')[x] == Nexts(bh)[x] && Prevs(bh')[x] == Prevs(bh)[x];
    }
  }
}
