/** The request queue of a block device (kernel/blk_drv/ll_rw_blk.c, blk.h): request
    slots linked through their `next` fields, kept in elevator order. */
module Elevator {

  const NULL: int := -1
  const NR_REQUEST: int := 32
  const READ: int := 0
  const WRITE: int := 1

  /** A free slot has dev == -1.  `left` is nr_sectors. */
  datatype Request = Request(dev: int, cmd: int, sector: int, left: int, bh: int, next: int)

  datatype Key = Key(cmd: int, dev: int, sector: int)

  function KeyOf(r: Request): Key {
    Key(r.cmd, r.dev, r.sector)
  }

  /** IN_ORDER: reads before writes, then by device, then by sector. */
  predicate InOrder(a: Key, b: Key) {
    a.cmd < b.cmd || (a.cmd == b.cmd && (a.dev < b.dev || (a.dev == b.dev && a.sector < b.sector)))
  }

  predicate Descent(k: seq<Key>, i: int) {
    0 <= i && i + 1 < |k| && !InOrder(k[i], k[i + 1])
  }

  /** The shape of an elevator queue: an ascending sweep, then perhaps one more. */
  ghost predicate OneSweepPlus(k: seq<Key>) {
    forall i, j :: Descent(k, i) && Descent(k, j) ==> i == j
  }

  ghost predicate DistinctKeys(k: seq<Key>) {
    forall i, j :: 0 <= i < |k| && 0 <= j < |k| && k[i] == k[j] ==> i == j
  }

  /** The test of add_request for inserting r after position i. */
  predicate Fits(k: seq<Key>, i: int, r: Key)
    requires 0 <= i && i + 1 < |k|
  {
    (InOrder(k[i], r) || !InOrder(k[i], k[i + 1])) && InOrder(r, k[i + 1])
  }

  function InsertAfter<T>(s: seq<T>, i: int, x: T): seq<T>
    requires 0 <= i < |s|
  {
    s[..i + 1] + [x] + s[i + 1..]
  }

  /** Where the walk of add_request stops: at the first fitting place, or the end. */
  ghost predicate StopsAt(k: seq<Key>, i: int, r: Key) {
    && 0 <= i < |k|
    && (forall j :: 0 <= j < i && j + 1 < |k| ==> !Fits(k, j, r))
    && (i + 1 < |k| ==> Fits(k, i, r))
  }

  /** If nothing fits and some entry is below r, the last one is. */
  lemma {:induction false} StaysBelow(k: seq<Key>, r: Key, d: int)
    requires 0 <= d < |k| && r !in k && InOrder(k[d], r)
    requires forall j :: d <= j && j + 1 < |k| ==> !Fits(k, j, r)
    ensures InOrder(k[|k| - 1], r)
    decreases |k| - d
  {
    if d + 1 < |k| {
      assert !Fits(k, d, r) && k[d + 1] in k;
      StaysBelow(k, r, d + 1);
    }
  }

  /** Insertion keeps the shape. */
  lemma InsertKeepsShape(k: seq<Key>, i: int, r: Key)
    requires OneSweepPlus(k) && r !in k && StopsAt(k, i, r)
    ensures OneSweepPlus(InsertAfter(k, i, r))
  {
    var m := InsertAfter(k, i, r);
    forall p, q | Descent(m, p) && Descent(m, q)
      ensures p == q
    {
      DescentOrigin(k, i, r, p);
      DescentOrigin(k, i, r, q);
    }
  }

  /** Each descent after the insertion accounts for one before it, except that one
      may appear before r when there was none. */
  lemma DescentOrigin(k: seq<Key>, i: int, r: Key, p: int)
    requires OneSweepPlus(k) && r !in k && StopsAt(k, i, r)
    requires Descent(InsertAfter(k, i, r), p)
    ensures p < i ==> Descent(k, p)
    ensures p == i ==> if i + 1 < |k| then Descent(k, i) else forall d :: !Descent(k, d)
    ensures p > i ==> p > i + 1 && Descent(k, p - 1)
  {
    var m := InsertAfter(k, i, r);
    if p < i {
      assert m[p] == k[p] && m[p + 1] == k[p + 1];
    } else if p == i {
      assert m[p] == k[i] && m[p + 1] == r;
      if i + 1 == |k| {
        forall d
          ensures !Descent(k, d)
        {
          if Descent(k, d) {
            assert !Fits(k, d, r);
            assert k[d + 1] in k;
            StaysBelow(k, r, d + 1);
          }
        }
      }
    } else if p == i + 1 {
      assert false;
    } else {
      assert m[p] == k[p - 1] && m[p + 1] == k[p];
    }
  }

  /** Dropping the served head keeps the shape. */
  lemma TailKeepsShape(k: seq<Key>)
    requires OneSweepPlus(k) && k != []
    ensures OneSweepPlus(k[1..])
  {
    forall i, j | Descent(k[1..], i) && Descent(k[1..], j)
      ensures i == j
    {
      assert Descent(k, i + 1) && Descent(k, j + 1);
    }
  }

  /** Block requests start on even sectors, so the head may move one sector on
      without changing the order or meeting another key. */
  lemma AdvanceKeepsShape(k: seq<Key>)
    requires OneSweepPlus(k) && DistinctKeys(k) && k != []
    requires forall i :: 0 <= i < |k| ==> k[i].sector % 2 == 0
    ensures var m := k[0 := k[0].(sector := k[0].sector + 1)];
      OneSweepPlus(m) && DistinctKeys(m)
  {
    var m := k[0 := k[0].(sector := k[0].sector + 1)];
    assert |k| > 1 ==> k[0] != k[1];
    forall i, j | Descent(m, i) && Descent(m, j)
      ensures i == j
    {
      assert Descent(k, i) && Descent(k, j);
    }
  }

  // ---- the linked list ----

  function Succ(q: seq<int>, i: int): int
    requires 0 <= i < |q|
  {
    if i + 1 < |q| then q[i + 1] else NULL
  }

  predicate Same(q: seq<int>, i: int, j: int) {
    0 <= i < |q| && 0 <= j < |q| && q[i] == q[j]
  }

  /** `q` lists the slots of the pending requests, linked by `next` from `current`. */
  ghost predicate ListOk(r: seq<Request>, current: int, q: seq<int>) {
    && current == (if q == [] then NULL else q[0])
    && (forall i :: 0 <= i < |q| ==> 0 <= q[i] < |r|)
    && (forall i :: 0 <= i < |q| ==> r[q[i]].next == Succ(q, i))
    && (forall i, j :: Same(q, i, j) ==> i == j)
  }

  function Keys(r: seq<Request>, q: seq<int>): (k: seq<Key>)
    requires forall i :: 0 <= i < |q| ==> 0 <= q[i] < |r|
    ensures |k| == |q|
  {
    seq(|q|, i requires 0 <= i < |q| => KeyOf(r[q[i]]))
  }

  /** Waiting requests sit on even sectors with both sectors to do; the one under
      transfer may have done one. */
  ghost predicate Aligned(r: seq<Request>, q: seq<int>)
    requires forall i :: 0 <= i < |q| ==> 0 <= q[i] < |r|
  {
    && (forall i :: 0 <= i < |q| ==> r[q[i]].dev >= 0)
    && (forall i :: 0 < i < |q| ==> r[q[i]].sector % 2 == 0 && r[q[i]].left == 2)
    && (q != [] ==> r[q[0]].left == 1 || (r[q[0]].left == 2 && r[q[0]].sector % 2 == 0))
  }

  /** Linking slot s behind position i. */
  function Link(r: seq<Request>, t: int, s: int): seq<Request>
    requires 0 <= t < |r| && 0 <= s < |r|
  {
    r[s := r[s].(next := r[t].next)][t := r[t].(next := s)]
  }

  lemma LinkDistinct(q: seq<int>, i: int, s: int)
    requires 0 <= i < |q| && s !in q && forall a, b :: Same(q, a, b) ==> a == b
    ensures forall a, b :: Same(InsertAfter(q, i, s), a, b) ==> a == b
  {
    var q' := InsertAfter(q, i, s);
    forall j, k | Same(q', j, k)
      ensures j == k
    {
      var a, b := if j <= i then j else j - 1, if k <= i then k else k - 1;
      assert j != i + 1 ==> q'[j] == q[a] && q[a] in q;
      assert k != i + 1 ==> q'[k] == q[b] && q[b] in q;
      assert j != i + 1 && k != i + 1 ==> Same(q, a, b);
    }
  }

  lemma LinkAt(r: seq<Request>, current: int, q: seq<int>, i: int, s: int, k: int)
    requires ListOk(r, current, q) && 0 <= i < |q| && s !in q && 0 <= s < |r| && 0 <= k <= |q|
    ensures var r', q' := Link(r, q[i], s), InsertAfter(q, i, s);
      0 <= q'[k] < |r'| && r'[q'[k]].next == Succ(q', k)
  {
    var r', q' := Link(r, q[i], s), InsertAfter(q, i, s);
    if k == i + 1 {
      assert r[q[i]].next == Succ(q, i) && q[i] in q;
    } else {
      var j := if k <= i then k else k - 1;
      assert q'[k] == q[j] && q[j] in q;
      assert r[q[j]].next == Succ(q, j);
      assert j != i ==> !Same(q, i, j);
    }
  }

  lemma LinkKeeps(r: seq<Request>, current: int, q: seq<int>, i: int, s: int)
    requires ListOk(r, current, q) && 0 <= i < |q| && s !in q && 0 <= s < |r|
    ensures ListOk(Link(r, q[i], s), current, InsertAfter(q, i, s))
  {
    var r', q' := Link(r, q[i], s), InsertAfter(q, i, s);
    forall k | 0 <= k < |q'|
      ensures 0 <= q'[k] < |r'| && r'[q'[k]].next == Succ(q', k)
    {
      LinkAt(r, current, q, i, s, k);
    }
    LinkDistinct(q, i, s);
  }

  lemma InsertAt<T>(q: seq<T>, i: int, s: T, k: int)
    requires 0 <= i < |q| && 0 <= k <= |q|
    ensures |InsertAfter(q, i, s)| == |q| + 1
    ensures InsertAfter(q, i, s)[k] == if k <= i then q[k] else if k == i + 1 then s else q[k - 1]
  {
  }

  lemma SameKey(r: seq<Request>, t: int, s: int, x: int)
    requires 0 <= t < |r| && 0 <= s < |r| && 0 <= x < |r|
    ensures KeyOf(Link(r, t, s)[x]) == KeyOf(r[x])
  {
  }

  lemma LinkKeys(r: seq<Request>, current: int, q: seq<int>, i: int, s: int)
    requires ListOk(r, current, q) && 0 <= i < |q| && s !in q && 0 <= s < |r|
    requires ListOk(Link(r, q[i], s), current, InsertAfter(q, i, s))
    ensures Keys(Link(r, q[i], s), InsertAfter(q, i, s)) == InsertAfter(Keys(r, q), i, KeyOf(r[s]))
  {
    forall x | 0 <= x < |r|
      ensures KeyOf(Link(r, q[i], s)[x]) == KeyOf(r[x])
    {
      SameKey(r, q[i], s, x);
    }
    KeysInserted(r, Link(r, q[i], s), q, i, s);
  }

  lemma KeysInserted(r: seq<Request>, r': seq<Request>, q: seq<int>, i: int, s: int)
    requires |r'| == |r| && 0 <= i < |q| && 0 <= s < |r| && (forall k :: 0 <= k < |q| ==> 0 <= q[k] < |r|)
    requires forall k :: 0 <= k <= |q| ==> |InsertAfter(q, i, s)| == |q| + 1 && 0 <= InsertAfter(q, i, s)[k] < |r|
    requires forall x :: 0 <= x < |r| ==> KeyOf(r'[x]) == KeyOf(r[x])
    ensures Keys(r', InsertAfter(q, i, s)) == InsertAfter(Keys(r, q), i, KeyOf(r[s]))
  {
    var q' := InsertAfter(q, i, s);
    var got, want := Keys(r', q'), InsertAfter(Keys(r, q), i, KeyOf(r[s]));
    forall k | 0 <= k <= |q|
      ensures got[k] == want[k]
    {
      InsertAt(q, i, s, k);
      InsertAt(Keys(r, q), i, KeyOf(r[s]), k);
      hide InsertAfter;
    }
    assert got == want;
  }

  lemma LinkAligned(r: seq<Request>, current: int, q: seq<int>, i: int, s: int)
    requires ListOk(r, current, q) && 0 <= i < |q| && s !in q && 0 <= s < |r| && Aligned(r, q)
    requires r[s].dev >= 0 && r[s].sector % 2 == 0 && r[s].left == 2
    requires ListOk(Link(r, q[i], s), current, InsertAfter(q, i, s))
    ensures Aligned(Link(r, q[i], s), InsertAfter(q, i, s))
  {
    var r', q' := Link(r, q[i], s), InsertAfter(q, i, s);
    forall k | 0 <= k < |q'|
      ensures r'[q'[k]].dev >= 0
      ensures 0 < k ==> r'[q'[k]].sector % 2 == 0 && r'[q'[k]].left == 2
    {
      InsertAt(q, i, s, k);
      hide InsertAfter;
    }
  }

  lemma InsertDistinct(k: seq<Key>, i: int, x: Key)
    requires DistinctKeys(k) && x !in k && 0 <= i < |k|
    ensures DistinctKeys(InsertAfter(k, i, x))
  {
    var m := InsertAfter(k, i, x);
    forall a, b | 0 <= a < |m| && 0 <= b < |m| && m[a] == m[b]
      ensures a == b
    {
      var c, d := if a <= i then a else a - 1, if b <= i then b else b - 1;
      assert a != i + 1 ==> m[a] == k[c] && k[c] in k;
      assert b != i + 1 ==> m[b] == k[d] && k[d] in k;
    }
  }

  /** Only reads may use the last third of the slots. */
  function Limit(rw: int): int {
    if rw == READ then NR_REQUEST else NR_REQUEST * 2 / 3
  }

  class Device {
    const request: array<Request>
    var current: int
    /** The slots of the pending list, head first. */
    ghost var q: seq<int>

    ghost predicate Valid()
      reads this, request
    {
      && request.Length == NR_REQUEST && ListOk(request[..], current, q) && Aligned(request[..], q)
      && OneSweepPlus(Keys(request[..], q)) && DistinctKeys(Keys(request[..], q))
    }

    /** blk_dev_init. */
    constructor ()
      ensures Valid() && q == []
    {
      request := new Request[NR_REQUEST](_ => Request(-1, 0, 0, 0, NULL, NULL));
      current, q := NULL, [];
    }

    /** The search of make_request: writes may use only the lower two thirds of the
        slots.  NULL when there is none, and the caller sleeps. */
    method FindSlot(rw: int) returns (s: int)
      requires Valid() && (rw == READ || rw == WRITE)
      ensures s != NULL ==> 0 <= s < Limit(rw) && request[s].dev < 0 && s !in q
      ensures s == NULL ==> forall k :: 0 <= k < Limit(rw) ==> request[k].dev >= 0
    {
      s := Limit(rw) - 1;
      while s >= 0 && request[s].dev >= 0
        invariant -1 <= s < Limit(rw)
        invariant forall k :: s < k < Limit(rw) ==> request[k].dev >= 0
      {
        s := s - 1;
      }
      assert forall i :: 0 <= i < |q| ==> request[..][q[i]] == request[q[i]];
    }

    /** The walk of add_request. */
    method FindPlace(r: Key) returns (tmp: int, ghost i: int)
      requires request.Length == NR_REQUEST && ListOk(request[..], current, q) && q != []
      ensures 0 <= i < |q| && tmp == q[i] && StopsAt(Keys(request[..], q), i, r)
    {
      tmp, i := current, 0;
      ghost var keys := Keys(request[..], q);
      assert forall j :: 0 <= j < |q| ==> request[..][q[j]] == request[q[j]];
      while true
        invariant 0 <= i < |q| && tmp == q[i]
        invariant forall j :: 0 <= j < i && j + 1 < |q| ==> !Fits(keys, j, r)
        decreases |q| - i
      {
        var next := request[tmp].next;
        assert next == Succ(q, i);
        if next == NULL {
          return;
        }
        var k, l := KeyOf(request[tmp]), KeyOf(request[next]);
        assert keys[i] == k && keys[i + 1] == l;
        if (InOrder(k, r) || !InOrder(k, l)) && InOrder(r, l) {
          return;
        }
        tmp, i := next, i + 1;
      }
    }

    /** make_request's filling of a free slot, and add_request.  The head is never
        displaced, the rest keeps its order, and the shape is kept. */
    method AddRequest(s: int, dev: int, cmd: int, block: int, bh: int)
      requires Valid() && 0 <= s < NR_REQUEST && request[s].dev < 0 && dev >= 0
      requires Key(cmd, dev, block * 2) !in Keys(request[..], q)
      modifies this, request
      ensures Valid()
      ensures if old(q) == [] then q == [s]
        else exists i :: StopsAt(old(Keys(request[..], q)), i, Key(cmd, dev, block * 2)) && i < |old(q)|
                         && q == InsertAfter(old(q), i, s)
      ensures KeyOf(request[s]) == Key(cmd, dev, block * 2) && request[s].bh == bh
      ensures forall k :: 0 <= k < NR_REQUEST && k != s ==> request[k] == old(request[k]).(next := request[k].next)
    {
      hide OneSweepPlus, DistinctKeys, ListOk, StopsAt, Keys, Aligned;
      RangeOk(request[..], current, q);
      FreeNotListed(request[..], current, q, s);
      request[s] := Request(dev, cmd, block * 2, 2, bh, NULL);
      ghost var r := request[..];
      Untouched(old(request[..]), r, q, s);
      if current == NULL {
        current, q := s, [s];
        OneIsFine(r, s);
        return;
      }
      var tmp; ghost var i;
      tmp, i := FindPlace(KeyOf(request[s]));
      Inserted(r, current, q, i, s);
      request[s] := request[s].(next := request[tmp].next);
      request[tmp] := request[tmp].(next := s);
      assert request[..] == Link(r, q[i], s);
      q := InsertAfter(q, i, s);
    }

    /** One sector of the current request has been transferred and another is to come. */
    method SectorDone()
      requires Valid() && current != NULL && request[current].left == 2
      modifies request
      ensures Valid()
      ensures var x := old(request[current]);
        request[..] == old(request[..])[current := x.(sector := x.sector + 1, left := 1)]
    {
      hide OneSweepPlus, DistinctKeys, ListOk, Aligned;
      RangeOk(request[..], current, q);
      Advanced(request[..], current, q);
      request[current] := request[current].(sector := request[current].sector + 1, left := 1);
    }

    /** end_request: the slot is free again and the next request is current. */
    method EndRequest()
      requires Valid() && current != NULL
      modifies this, request
      ensures Valid() && q == old(q)[1..]
      ensures request[..] == old(request[..])[old(current) := old(request[current]).(dev := -1)]
    {
      hide OneSweepPlus, DistinctKeys, ListOk, Aligned;
      RangeOk(request[..], current, q);
      Ended(request[..], current, q);
      var done := current;
      current := request[current].next;
      request[done] := request[done].(dev := -1);
      q := q[1..];
    }
  }

  lemma RangeOk(r: seq<Request>, current: int, q: seq<int>)
    requires ListOk(r, current, q)
    ensures forall i :: 0 <= i < |q| ==> 0 <= q[i] < |r|
    ensures if q == [] then current == NULL else current == q[0] && 0 <= current < |r|
  {
  }

  lemma HeadApart(r: seq<Request>, current: int, q: seq<int>)
    requires ListOk(r, current, q) && q != []
    ensures q[0] == current && forall i :: 0 < i < |q| ==> q[i] != current
  {
    forall i | 0 < i < |q|
      ensures q[i] != current
    {
      assert !Same(q, 0, i);
    }
  }

  lemma TailList(r: seq<Request>, current: int, q: seq<int>, r': seq<Request>)
    requires ListOk(r, current, q) && q != [] && |r'| == |r| && forall k :: 0 <= k < |r| ==> r'[k].next == r[k].next
    ensures ListOk(r', r[current].next, q[1..])
  {
    var t := q[1..];
    assert r[q[0]].next == Succ(q, 0);
    assert forall i, j :: Same(t, i, j) ==> Same(q, i + 1, j + 1);
    forall i | 0 <= i < |t|
      ensures 0 <= t[i] < |r'| && r'[t[i]].next == Succ(t, i)
    {
      assert t[i] == q[i + 1] && r[q[i + 1]].next == Succ(q, i + 1);
    }
  }

  lemma TailDistinct(k: seq<Key>)
    requires DistinctKeys(k) && k != []
    ensures DistinctKeys(k[1..])
  {
    forall i, j | 0 <= i < |k[1..]| && 0 <= j < |k[1..]| && k[1..][i] == k[1..][j]
      ensures i == j
    {
      assert k[i + 1] == k[j + 1];
    }
  }

  lemma Advanced(r: seq<Request>, current: int, q: seq<int>)
    requires ListOk(r, current, q) && Aligned(r, q) && current != NULL && r[current].left == 2
    requires OneSweepPlus(Keys(r, q)) && DistinctKeys(Keys(r, q))
    ensures var r' := r[current := r[current].(sector := r[current].sector + 1, left := 1)];
      && ListOk(r', current, q) && Aligned(r', q)
      && OneSweepPlus(Keys(r', q)) && DistinctKeys(Keys(r', q))
  {
    hide OneSweepPlus, DistinctKeys;
    var keys := Keys(r, q);
    var r' := r[current := r[current].(sector := r[current].sector + 1, left := 1)];
    HeadApart(r, current, q);
    AdvanceKeepsShape(keys);
    assert Keys(r', q) == keys[0 := keys[0].(sector := keys[0].sector + 1)];
  }

  lemma Ended(r: seq<Request>, current: int, q: seq<int>)
    requires ListOk(r, current, q) && Aligned(r, q) && current != NULL
    requires OneSweepPlus(Keys(r, q)) && DistinctKeys(Keys(r, q))
    ensures var r' := r[current := r[current].(dev := -1)];
      && ListOk(r', r[current].next, q[1..]) && Aligned(r', q[1..])
      && OneSweepPlus(Keys(r', q[1..])) && DistinctKeys(Keys(r', q[1..]))
  {
    hide OneSweepPlus, DistinctKeys, ListOk;
    RangeOk(r, current, q);
    var keys, t := Keys(r, q), q[1..];
    var r' := r[current := r[current].(dev := -1)];
    HeadApart(r, current, q);
    TailList(r, current, q, r');
    TailKeepsShape(keys);
    TailDistinct(keys);
    assert Keys(r', t) == keys[1..];
  }

  lemma FreeNotListed(r: seq<Request>, current: int, q: seq<int>, s: int)
    requires ListOk(r, current, q) && Aligned(r, q) && 0 <= s < |r| && r[s].dev < 0
    ensures s !in q
  {
  }

  lemma Untouched(r: seq<Request>, r': seq<Request>, q: seq<int>, s: int)
    requires forall i :: 0 <= i < |q| ==> 0 <= q[i] < |r|
    requires s !in q && 0 <= s < |r| && |r'| == |r| && r' == r[s := r'[s]]
    ensures Keys(r', q) == Keys(r, q) && (Aligned(r, q) ==> Aligned(r', q))
    ensures forall c :: ListOk(r, c, q) ==> ListOk(r', c, q)
  {
    assert forall i :: 0 <= i < |q| ==> q[i] in q && r'[q[i]] == r[q[i]];
  }

  lemma OneIsFine(r: seq<Request>, s: int)
    requires 0 <= s < |r| && r[s].dev >= 0 && r[s].sector % 2 == 0 && r[s].left == 2 && r[s].next == NULL
    ensures ListOk(r, s, [s]) && Aligned(r, [s]) && OneSweepPlus(Keys(r, [s])) && DistinctKeys(Keys(r, [s]))
  {
  }

  lemma Inserted(r: seq<Request>, current: int, q: seq<int>, i: int, s: int)
    requires ListOk(r, current, q) && Aligned(r, q) && OneSweepPlus(Keys(r, q)) && DistinctKeys(Keys(r, q))
    requires 0 <= i < |q| && 0 <= s < |r| && s !in q && KeyOf(r[s]) !in Keys(r, q)
      && StopsAt(Keys(r, q), i, KeyOf(r[s]))
    requires r[s].dev >= 0 && r[s].sector % 2 == 0 && r[s].left == 2
    ensures 0 <= q[i] < |r|
    ensures var r', q' := Link(r, q[i], s), InsertAfter(q, i, s);
      && ListOk(r', current, q') && Aligned(r', q')
      && OneSweepPlus(Keys(r', q')) && DistinctKeys(Keys(r', q'))
  {
    hide OneSweepPlus, DistinctKeys, StopsAt, Aligned;
    LinkKeeps(r, current, q, i, s);
    LinkKeys(r, current, q, i, s);
    LinkAligned(r, current, q, i, s);
    InsertKeepsShape(Keys(r, q), i, KeyOf(r[s]));
    InsertDistinct(Keys(r, q), i, KeyOf(r[s]));
  }
}
