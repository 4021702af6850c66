/** The buffer cache's queued buffers and the elevator's request list are two views of
    one thing; here they are put side by side, so that what add_request needs, keys
    that differ, follows from what the cache keeps. */
module RequestKeys {
  import C = BufferCache
  import E = Elevator

  function CmdOf(c: C.Cmd): int {
    if c.READ? then E.READ else E.WRITE
  }

  /** The request is the one make_request wrote for its buffer; under transfer it may
      have moved one sector on. */
  predicate Stands(s: C.State, x: E.Request, head: bool) {
    && 0 <= x.bh < |s.buf| && s.buf[x.bh].io.Queued?
    && x.cmd == CmdOf(s.buf[x.bh].io.cmd) && x.dev == s.buf[x.bh].dev
    && (x.sector == 2 * s.buf[x.bh].block || (head && x.sector == 2 * s.buf[x.bh].block + 1))
  }

  predicate SameBuffer(r: seq<E.Request>, q: seq<int>, i: int, j: int) {
    && 0 <= i < |q| && 0 <= j < |q| && 0 <= q[i] < |r| && 0 <= q[j] < |r|
    && r[q[i]].bh == r[q[j]].bh
  }

  /** The list `q` of slots holds one request for each of a set of queued buffers. */
  ghost predicate Mirrors(s: C.State, r: seq<E.Request>, q: seq<int>) {
    && (forall i :: 0 <= i < |q| ==> 0 <= q[i] < |r| && Stands(s, r[q[i]], i == 0))
    && (forall i, j :: SameBuffer(r, q, i, j) ==> i == j)
  }

  /** Requests for different blocks have different keys, even if one has moved on:
      blocks begin on even sectors. */
  lemma KeysApart(s: C.State, r: seq<E.Request>, q: seq<int>, i: int, j: int)
    requires C.Inv(s) && Mirrors(s, r, q) && 0 <= i < |q| && 0 <= j < |q|
    requires E.KeyOf(r[q[i]]) == E.KeyOf(r[q[j]])
    ensures i == j
  {
    var b, c := r[q[i]].bh, r[q[j]].bh;
    assert Stands(s, r[q[i]], i == 0) && Stands(s, r[q[j]], j == 0);
    if b < c {
      C.QueuedApart(s, b, c);
    } else if c < b {
      C.QueuedApart(s, c, b);
    } else {
      assert SameBuffer(r, q, i, j);
    }
  }

  lemma KeysDistinct(s: C.State, r: seq<E.Request>, q: seq<int>)
    requires C.Inv(s) && Mirrors(s, r, q)
    ensures E.DistinctKeys(E.Keys(r, q))
  {
    var k := E.Keys(r, q);
    forall i, j | 0 <= i < |k| && 0 <= j < |k| && k[i] == k[j]
      ensures i == j
    {
      KeysApart(s, r, q, i, j);
    }
  }

  /** add_request's precondition: a locked buffer that waits for its slot has a key of
      its own. */
  lemma FreshKey(s: C.State, r: seq<E.Request>, q: seq<int>, b: int)
    requires C.Inv(s) && Mirrors(s, r, q) && 0 <= b < |s.buf| && s.buf[b].io.WaitSlot?
    ensures E.Key(CmdOf(s.buf[b].io.cmd), s.buf[b].dev, s.buf[b].block * 2) !in E.Keys(r, q)
  {
    forall i | 0 <= i < |q|
      ensures E.KeyOf(r[q[i]]) != E.Key(CmdOf(s.buf[b].io.cmd), s.buf[b].dev, s.buf[b].block * 2)
    {
      var x := r[q[i]];
      assert Stands(s, x, i == 0);
      assert C.BufOk(s.buf[b], C.DiskAt(s, (s.buf[b].dev, s.buf[b].block)));
      if x.dev == s.buf[b].dev && x.sector == s.buf[b].block * 2 {
        assert C.Has(s, x.bh, C.KeyOf(s, b)) && C.Has(s, b, C.KeyOf(s, b));
      }
    }
  }

  /** The new request stands for the buffer it was made for, and the others for theirs:
      `i` is the place add_request found. */
  lemma EnqueueMirrors(s: C.State, r: seq<E.Request>, q: seq<int>, b: int, t: int, i: int,
                       r': seq<E.Request>, q': seq<int>)
    requires Mirrors(s, r, q) && 0 <= b < |s.buf| && s.buf[b].io.WaitSlot?
    requires |r'| == |r| && 0 <= t < |r| && t !in q
    requires r'[t].bh == b && E.KeyOf(r'[t]) == E.Key(CmdOf(s.buf[b].io.cmd), s.buf[b].dev, s.buf[b].block * 2)
    requires forall k :: 0 <= k < |r| && k != t ==> r'[k] == r[k].(next := r'[k].next)
    requires if q == [] then q' == [t] else 0 <= i < |q| && q' == E.InsertAfter(q, i, t)
    ensures Mirrors(C.Step(s, C.Enqueue(b)), r', q')
  {
    var s' := C.Step(s, C.Enqueue(b));
    forall k | 0 <= k < |q'|
      ensures 0 <= q'[k] < |r'| && Stands(s', r'[q'[k]], k == 0)
      ensures r'[q'[k]].bh == if q'[k] == t then b else r[q'[k]].bh
      ensures q'[k] != t ==> 0 <= Back(k, i) < |q| && q'[k] == q[Back(k, i)] && r[q'[k]].bh != b
      ensures q'[k] == t <==> k == if q == [] then 0 else i + 1
    {
      if q != [] {
        E.InsertAt(q, i, t, k);
        if k != i + 1 {
          assert q[Back(k, i)] in q && Stands(s, r[q[Back(k, i)]], Back(k, i) == 0);
        }
      }
    }
    forall j, k | SameBuffer(r', q', j, k)
      ensures j == k
    {
      if q'[j] != t && q'[k] != t {
        assert SameBuffer(r, q, Back(j, i), Back(k, i));
      }
    }
  }

  /** Where the entry at k was before the insertion behind i. */
  function Back(k: int, i: int): int {
    if k <= i then k else k - 1
  }

  /** end_request takes the head and its buffer off both sides. */
  lemma CompleteMirrors(s: C.State, r: seq<E.Request>, q: seq<int>, r': seq<E.Request>, ok: bool)
    requires Mirrors(s, r, q) && q != [] && |r'| == |r|
    requires forall k :: 0 <= k < |r| && k != q[0] ==> r'[k] == r[k]
    requires forall i :: 0 < i < |q| ==> q[i] != q[0] && r[q[i]].sector % 2 == 0
    ensures Mirrors(C.Step(s, C.Complete(r[q[0]].bh, ok)), r', q[1..])
  {
    var b, t := r[q[0]].bh, q[1..];
    var s' := C.Step(s, C.Complete(b, ok));
    forall k | 0 <= k < |t|
      ensures 0 <= t[k] < |r'| && Stands(s', r'[t[k]], k == 0) && r'[t[k]] == r[q[k + 1]]
    {
      assert t[k] == q[k + 1] && Stands(s, r[q[k + 1]], false);
      assert !SameBuffer(r, q, k + 1, 0);
    }
    forall j, k | SameBuffer(r', t, j, k)
      ensures j == k
    {
      assert SameBuffer(r, q, j + 1, k + 1);
    }
  }

  /** Moving the head from its first to its second sector. */
  lemma AdvanceMirrors(s: C.State, r: seq<E.Request>, q: seq<int>)
    requires Mirrors(s, r, q) && q != [] && r[q[0]].sector % 2 == 0
    requires forall i :: 0 < i < |q| ==> q[i] != q[0]
    ensures Mirrors(s, r[q[0] := r[q[0]].(sector := r[q[0]].sector + 1, left := 1)], q)
  {
    var r' := r[q[0] := r[q[0]].(sector := r[q[0]].sector + 1, left := 1)];
    assert Stands(s, r[q[0]], true);
    forall i, j | SameBuffer(r', q, i, j)
      ensures i == j
    {
      assert SameBuffer(r, q, i, j);
    }
  }

  // ---- whole runs ----

  /** The buffer is one of those in the list. */
  ghost predicate Listed(r: seq<E.Request>, q: seq<int>, b: int) {
    exists i :: 0 <= i < |q| && 0 <= q[i] < |r| && r[q[i]].bh == b
  }

  /** Whatever else happens in the cache, and to the queues of other devices, leaves a
      queued buffer what it is until its own transfer is over. */
  lemma OtherMirrors(s: C.State, r: seq<E.Request>, q: seq<int>, act: C.Act)
    requires Mirrors(s, r, q) && (act.Complete? ==> !Listed(r, q, act.b))
    ensures Mirrors(C.Step(s, act), r, q)
  {
    forall i | 0 <= i < |q|
      ensures Stands(C.Step(s, act), r[q[i]], i == 0)
    {
      assert Stands(s, r[q[i]], i == 0);
      QueuedStays(s, act, r[q[i]].bh);
    }
  }

  lemma QueuedStays(s: C.State, act: C.Act, b: int)
    requires 0 <= b < |s.buf| && s.buf[b].io.Queued? && act != C.Complete(b, true) && act != C.Complete(b, false)
    ensures var x := C.Step(s, act);
      |x.buf| == |s.buf| && x.buf[b].io == s.buf[b].io && C.KeyOf(x, b) == C.KeyOf(s, b)
  {
    hide C.Find;
    match act {
      case Wake(a, v) =>
        if 0 <= a < |s.agent| {
          WokenStays(s, a, v, b);
        }
      case _ =>
    }
  }

  lemma WokenStays(s: C.State, a: int, v: int, b: int)
    requires 0 <= a < |s.agent| && 0 <= b < |s.buf| && s.buf[b].io.Queued?
    ensures var x := C.Woken(s, a, v);
      |x.buf| == |s.buf| && x.buf[b].io == s.buf[b].io && C.KeyOf(x, b) == C.KeyOf(s, b)
  {
    hide C.Find;
  }

  /** The cache and one device's request list. */
  datatype Both = Both(s: C.State, r: seq<E.Request>, q: seq<int>)

  datatype Event = Other(act: C.Act) | Enter(b: int, slot: int) | Advance | Finish(ok: bool)

  /** One step of the two together, as Elevator.Device's methods and C.Step take it. */
  ghost predicate Moves(x: Both, e: Event, y: Both) {
    |y.r| == |x.r| && (forall i :: 0 <= i < |x.q| ==> 0 <= x.q[i] < |x.r|) &&
    match e
    case Other(act) =>
      && C.FailureOk(x.s, act) && (act.Complete? ==> !Listed(x.r, x.q, act.b))
      && y == Both(C.Step(x.s, act), x.r, x.q)
    case Enter(b, t) =>
      && 0 <= b < |x.s.buf| && x.s.buf[b].io.WaitSlot? && 0 <= t < |x.r| && t !in x.q
      && y.s == C.Step(x.s, C.Enqueue(b)) && y.r[t].bh == b
      && E.KeyOf(y.r[t]) == E.Key(CmdOf(x.s.buf[b].io.cmd), x.s.buf[b].dev, x.s.buf[b].block * 2)
      && (forall k :: 0 <= k < |x.r| && k != t ==> y.r[k] == x.r[k].(next := y.r[k].next))
      && (if x.q == [] then y.q == [t] else exists i :: 0 <= i < |x.q| && y.q == E.InsertAfter(x.q, i, t))
    case Advance =>
      && x.q != [] && x.r[x.q[0]].sector % 2 == 0
      && y == x.(r := x.r[x.q[0] := x.r[x.q[0]].(sector := x.r[x.q[0]].sector + 1, left := 1)])
    case Finish(ok) =>
      && x.q != [] && C.FailureOk(x.s, C.Complete(x.r[x.q[0]].bh, ok))
      && y.s == C.Step(x.s, C.Complete(x.r[x.q[0]].bh, ok)) && y.q == x.q[1..]
      && y.r == x.r[x.q[0] := x.r[x.q[0]].(dev := -1)]
  }

  ghost predicate Agree(x: Both) {
    C.Inv(x.s) && Mirrors(x.s, x.r, x.q)
  }

  /** The list has no slot twice, and only its head can be on an odd sector. */
  lemma ListShape(x: Both)
    requires Agree(x)
    ensures forall i :: 0 < i < |x.q| ==> x.q[i] != x.q[0] && x.r[x.q[i]].sector % 2 == 0
  {
    forall i | 0 < i < |x.q|
      ensures x.q[i] != x.q[0] && x.r[x.q[i]].sector % 2 == 0
    {
      assert Stands(x.s, x.r[x.q[i]], false);
      assert !SameBuffer(x.r, x.q, i, 0);
    }
  }

  lemma MovesKeep(x: Both, e: Event, y: Both)
    requires Agree(x) && Moves(x, e, y)
    ensures Agree(y)
  {
    ListShape(x);
    hide Mirrors, C.Inv, C.Step;
    match e
    case Other(act) =>
      OtherMirrors(x.s, x.r, x.q, act);
      C.StepKeeps(x.s, act);
    case Enter(b, t) =>
      C.StepKeeps(x.s, C.Enqueue(b));
      if x.q == [] {
        EnqueueMirrors(x.s, x.r, x.q, b, t, 0, y.r, y.q);
      } else {
        var i :| 0 <= i < |x.q| && y.q == E.InsertAfter(x.q, i, t);
        EnqueueMirrors(x.s, x.r, x.q, b, t, i, y.r, y.q);
      }
    case Advance =>
      AdvanceMirrors(x.s, x.r, x.q);
    case Finish(ok) =>
      C.StepKeeps(x.s, C.Complete(x.r[x.q[0]].bh, ok));
      CompleteMirrors(x.s, x.r, x.q, y.r, ok);
  }

  /** Over any run that starts with an empty list, add_request never meets a key that is
      pending already. */
  lemma {:induction false} AlwaysFresh(xs: seq<Both>, events: seq<Event>, n: nat, b: int)
    requires |xs| == |events| + 1 && n <= |events| && C.Inv(xs[0].s) && xs[0].q == []
    requires forall k :: 0 <= k < |events| ==> Moves(xs[k], events[k], xs[k + 1])
    ensures Agree(xs[n])
    ensures 0 <= b < |xs[n].s.buf| && xs[n].s.buf[b].io.WaitSlot? ==>
              E.Key(CmdOf(xs[n].s.buf[b].io.cmd), xs[n].s.buf[b].dev, xs[n].s.buf[b].block * 2)
                !in E.Keys(xs[n].r, xs[n].q)
  {
    hide Moves, C.Inv;
    if n > 0 {
      AlwaysFresh(xs, events, n - 1, b);
      MovesKeep(xs[n - 1], events[n - 1], xs[n]);
    }
    if 0 <= b < |xs[n].s.buf| && xs[n].s.buf[b].io.WaitSlot? {
      FreshKey(xs[n].s, xs[n].r, xs[n].q, b);
    }
  }
}
