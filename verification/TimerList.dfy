/** timer_list[] and next_timer of kernel/sched.c: nodes of a fixed array, linked in
    place, whose contents are swapped along the list. */
module TimerList {
  import opened TimerModel

  const TIME_REQUESTS: int := 64
  const NIL: int := -1

  /** The function pointer; the request it stands for is bookkeeping. */
  datatype Fn = Null | Fn(ticket: nat, due: int)

  datatype Node = Node(jiffies: int, fn: Fn, next: int)

  function After(order: seq<int>, i: int): int {
    if 0 <= i < |order| then order[i] else NIL
  }

  predicate Follows(node: seq<Node>, order: seq<int>, i: int) {
    0 <= i < |order| && 0 <= order[i] < |node| && node[order[i]].fn.Fn? && node[order[i]].next == After(order, i + 1)
  }

  predicate Repeats(order: seq<int>, i: int, j: int) {
    0 <= i < j < |order| && order[i] == order[j]
  }

  /** Nodes `order` are in use and linked in that order from `first`; the others are free. */
  ghost predicate Linked(node: seq<Node>, order: seq<int>, first: int) {
    && |node| == TIME_REQUESTS && first == After(order, 0)
    && (forall i :: 0 <= i < |order| ==> Follows(node, order, i))
    && (forall i, j :: !Repeats(order, i, j))
    && (forall x :: 0 <= x < |node| && node[x].fn.Fn? ==> x in order)
  }

  ghost function EntryAt(node: seq<Node>, order: seq<int>, i: int): Entry
    requires Follows(node, order, i)
  {
    Entry(node[order[i]].jiffies, node[order[i]].fn.ticket, node[order[i]].fn.due)
  }

  ghost function Entries(node: seq<Node>, order: seq<int>): (l: seq<Entry>)
    requires forall i :: 0 <= i < |order| ==> Follows(node, order, i)
  {
    seq(|order|, i requires 0 <= i < |order| => EntryAt(node, order, i))
  }

  /** One round of add_timer's loop on nodes p and n == p.next. */
  function Swapped(node: seq<Node>, p: int, n: int): seq<Node>
    requires 0 <= p < |node| && 0 <= n < |node|
  {
    var moved := node[p := Node(node[n].jiffies, node[n].fn, node[p].next)];
    moved[n := Node(node[p].jiffies - node[n].jiffies, node[p].fn, node[n].next)]
  }

  lemma SwappedKeeps(node: seq<Node>, order: seq<int>, first: int, q: nat)
    requires Linked(node, order, first) && q + 1 < |order|
    ensures Follows(node, order, q) && Follows(node, order, q + 1)
    ensures var r := Swapped(node, order[q], order[q + 1]); Linked(r, order, first)
    ensures var r, l := Swapped(node, order[q], order[q + 1]), Entries(node, order);
            Entries(r, order) == l[q := l[q + 1]][q + 1 := l[q].(delta := l[q].delta - l[q + 1].delta)]
  {
    assert Follows(node, order, q) && Follows(node, order, q + 1) && !Repeats(order, q, q + 1);
    var p, n := order[q], order[q + 1];
    var r := Swapped(node, p, n);
    var l := Entries(node, order);
    var m := l[q := l[q + 1]][q + 1 := l[q].(delta := l[q].delta - l[q + 1].delta)];
    forall i | 0 <= i < |order|
      ensures Follows(r, order, i) && EntryAt(r, order, i) == m[i]
    {
      assert Follows(node, order, i);
      assert !Repeats(order, i, q) && !Repeats(order, q, i) && !Repeats(order, i, q + 1) && !Repeats(order, q + 1, i);
    }
    assert Linked(r, order, first);
    assert Entries(r, order) == m;
  }

  lemma PushKeeps(node: seq<Node>, order: seq<int>, first: int, p: int, jiffies: int, fn: Fn)
    requires Linked(node, order, first) && 0 <= p < |node| && node[p].fn == Null && fn.Fn?
    ensures Linked(node[p := Node(jiffies, fn, first)], [p] + order, p)
    ensures Entries(node[p := Node(jiffies, fn, first)], [p] + order)
      == [Entry(jiffies, fn.ticket, fn.due)] + Entries(node, order)
  {
    var r, o := node[p := Node(jiffies, fn, first)], [p] + order;
    var m := [Entry(jiffies, fn.ticket, fn.due)] + Entries(node, order);
    forall i | 0 <= i < |o|
      ensures Follows(r, o, i) && EntryAt(r, o, i) == m[i]
    {
      if i > 0 {
        assert Follows(node, order, i - 1);
      }
    }
    forall i, j
      ensures !Repeats(o, i, j)
    {
      if 0 < i < j < |o| {
        assert !Repeats(order, i - 1, j - 1);
      } else if i == 0 && 0 < j < |o| {
        assert Follows(node, order, j - 1);
      }
    }
    forall x | 0 <= x < |r| && r[x].fn.Fn?
      ensures x in o
    {
      assert x != p ==> x in order;
    }
    assert Entries(r, o) == m;
  }

  lemma PopKeeps(node: seq<Node>, order: seq<int>, first: int)
    requires Linked(node, order, first) && order != []
    ensures Follows(node, order, 0) && first == order[0]
    ensures Linked(node[first := node[first].(fn := Null)], order[1..], node[first].next)
    ensures Entries(node[first := node[first].(fn := Null)], order[1..]) == Entries(node, order)[1..]
  {
    assert Follows(node, order, 0);
    var r, o := node[first := node[first].(fn := Null)], order[1..];
    forall i | 0 <= i < |o|
      ensures Follows(r, o, i) && EntryAt(r, o, i) == Entries(node, order)[i + 1]
    {
      assert Follows(node, order, i + 1) && !Repeats(order, 0, i + 1);
    }
    forall i, j
      ensures !Repeats(o, i, j)
    {
      assert !Repeats(order, i + 1, j + 1);
    }
    forall x | 0 <= x < |r| && r[x].fn.Fn?
      ensures x in o
    {
      assert x in order && x != order[0];
    }
    assert After(o, 0) == After(order, 1);
    assert Entries(r, o) == Entries(node, order)[1..];
  }

  lemma CountDown(node: seq<Node>, order: seq<int>, first: int)
    requires Linked(node, order, first) && order != []
    ensures Follows(node, order, 0) && first == order[0]
    ensures var r := node[first := node[first].(jiffies := node[first].jiffies - 1)];
            Linked(r, order, first) && Entries(r, order)
              == Entries(node, order)[0 := Entries(node, order)[0].(delta := Entries(node, order)[0].delta - 1)]
  {
    assert Follows(node, order, 0);
    var r := node[first := node[first].(jiffies := node[first].jiffies - 1)];
    var l := Entries(node, order);
    forall i | 0 <= i < |order|
      ensures Follows(r, order, i) && EntryAt(r, order, i) == l[0 := l[0].(delta := l[0].delta - 1)][i]
    {
      assert Follows(node, order, i) && !Repeats(order, 0, i);
    }
    assert Entries(r, order) == l[0 := l[0].(delta := l[0].delta - 1)];
  }

  // ---- the loop's progress ----

  /** The newcomer has reached position q with `e` left of its delay. */
  ghost predicate Reached(l: seq<Entry>, was: seq<Entry>, asked: Entry, q: nat, e: Entry) {
    q <= |was| && l == was[..q] + [e] + was[q..] && Insert(was, asked) == was[..q] + Insert(was[q..], e)
  }

  lemma ReachedNext(l: seq<Entry>, was: seq<Entry>, asked: Entry, q: nat, e: Entry)
    requires Reached(l, was, asked, q, e) && q < |was| && was[q].delta < e.delta
    ensures |l| == |was| + 1
    ensures Reached(l[q := l[q + 1]][q + 1 := l[q].(delta := l[q].delta - l[q + 1].delta)], was, asked, q + 1,
                    e.(delta := e.delta - was[q].delta))
  {
    var f := e.(delta := e.delta - was[q].delta);
    assert was[q..][1..] == was[q + 1..];
    assert was[..q + 1] == was[..q] + [was[q]];
    assert Insert(was, asked) == was[..q] + ([was[q]] + Insert(was[q + 1..], f));
  }

  lemma ReachedEnd(l: seq<Entry>, was: seq<Entry>, asked: Entry, q: nat, e: Entry)
    requires Reached(l, was, asked, q, e) && (q == |was| || was[q].delta >= e.delta)
    ensures l == Insert(was, asked)
  {
    assert Insert(was[q..], e) == [e] + was[q..];
  }

  class Clock {
    const node: array<Node>
    var nextTimer: int
    var clock: int
    var fired: seq<Firing>
    var issued: nat
    ghost var order: seq<int>

    ghost predicate Wired()
      reads this, node
    {
      Linked(node[..], order, nextTimer)
    }

    ghost function T(): Timers
      requires Wired()
      reads this, node
    {
      Timers(Entries(node[..], order), clock, fired, issued)
    }

    /** A slot is in use exactly when it is on the list (Wired), and the list is sound. */
    ghost predicate Valid()
      reads this, node
    {
      Wired() && Inv(T())
    }

    constructor ()
      ensures Valid() && fresh(node) && T() == Timers([], 0, [], 0)
    {
      node := new Node[TIME_REQUESTS](_ => Node(0, Null, NIL));
      nextTimer, clock, fired, issued, order := NIL, 0, [], 0, [];
    }

    method FreeNode() returns (p: int)
      requires Wired()
      ensures 0 <= p <= TIME_REQUESTS && (p < TIME_REQUESTS ==> node[p].fn == Null)
      ensures p == TIME_REQUESTS ==> forall k :: 0 <= k < TIME_REQUESTS ==> node[k].fn.Fn? && k in order
    {
      p := 0;
      while p < TIME_REQUESTS && node[p].fn.Fn?
        invariant 0 <= p <= TIME_REQUESTS
        invariant forall k :: 0 <= k < p ==> node[k].fn.Fn?
      {
        p := p + 1;
      }
      assert forall k :: 0 <= k < p ==> node[..][k].fn.Fn?;
    }

    method SwapWithNext(p: int, n: int)
      requires 0 <= p < node.Length && 0 <= n < node.Length && p != n
      modifies node
      ensures node[..] == Swapped(old(node[..]), p, n)
    {
      node[p] := node[p].(jiffies := node[p].jiffies - node[n].jiffies);
      var fn := node[p].fn;
      node[p] := node[p].(fn := node[n].fn);
      node[n] := node[n].(fn := fn);
      var jiffies := node[p].jiffies;
      node[p] := node[p].(jiffies := node[n].jiffies);
      node[n] := node[n].(jiffies := jiffies);
    }

    /** Called with a function, so never ignored; `false` is the panic for want of a slot. */
    method AddTimer(jiffies: int) returns (ok: bool)
      requires Valid()
      modifies this, node
      ensures Valid()
      ensures ok ==> T() == Added(old(T()), jiffies)
      ensures !ok ==> T() == old(T()) && jiffies > 0 && forall k :: 0 <= k < TIME_REQUESTS ==> k in order
    {
      hide Inv;
      AddedKeeps(T(), jiffies);
      if jiffies <= 0 {
        fired := fired + [Firing(issued, clock + jiffies, clock)];
        issued := issued + 1;
        return true;
      }
      var p := FreeNode();
      if p >= TIME_REQUESTS {
        return false;
      }
      ghost var was := Entries(node[..], order);
      ghost var asked := Entry(jiffies, issued, clock + jiffies);
      PushKeeps(node[..], order, nextTimer, p, jiffies, Fn(issued, clock + jiffies));
      node[p] := Node(jiffies, Fn(issued, clock + jiffies), nextTimer);
      nextTimer := p;
      issued := issued + 1;
      order := [p] + order;
      Walk(p, was, asked);
      return true;
    }

    method Walk(start: int, ghost was: seq<Entry>, ghost asked: Entry)
      requires Wired() && start == nextTimer && order != [] && Entries(node[..], order) == [asked] + was
      modifies node
      ensures Wired() && Entries(node[..], order) == Insert(was, asked)
    {
      NilWhenEmpty(node[..], order, nextTimer);
      hide Linked, Insert;
      var p := start;
      ghost var q := 0;
      ghost var e := asked;
      assert p == order[0];
      while true
        invariant Wired() && q < |order| == |was| + 1 && p == order[q]
        invariant Reached(Entries(node[..], order), was, asked, q, e)
        decreases |was| - q
      {
        At(node[..], order, nextTimer, q);
        ReachedAt(Entries(node[..], order), was, asked, q, e);
        var n := node[p].next;
        if n == NIL || node[n].jiffies >= node[p].jiffies {
          break;
        }
        ghost var l := Entries(node[..], order);
        SwappedKeeps(node[..], order, nextTimer, q);
        ReachedNext(l, was, asked, q, e);
        SwapWithNext(p, n);
        e := e.(delta := e.delta - was[q].delta);
        p := n;
        q := q + 1;
      }
      ReachedEnd(Entries(node[..], order), was, asked, q, e);
    }

    /** The list part of a clock tick. The loop would go on for as long as timers have
        run out; with the deltas at least 1 it fires one at most. */
    method Tick()
      requires Valid()
      modifies this, node
      ensures Valid() && T() == Ticked(old(T())) && |fired| <= old(|fired|) + 1
    {
      ghost var s := T();
      TickedKeeps(s);
      hide Inv, Linked;
      CountHead();
      Drain(s);
    }

    method CountHead()
      requires Wired()
      modifies this, node
      ensures Wired() && T() == Advanced(old(T()))
    {
      hide Inv;
      NilWhenEmpty(node[..], order, nextTimer);
      clock := clock + 1;
      if nextTimer != NIL {
        CountDown(node[..], order, nextTimer);
        node[nextTimer] := node[nextTimer].(jiffies := node[nextTimer].jiffies - 1);
      }
    }

    method Drain(ghost s: Timers)
      requires Wired() && T() == Advanced(s) && Inv(Ticked(s))
      modifies this, node
      ensures Wired() && T() == Ticked(s)
    {
      hide Inv, Linked;
      InvPositive(Ticked(s));
      NilWhenEmpty(node[..], order, nextTimer);
      ghost var popped := false;
      while nextTimer != NIL && node[nextTimer].jiffies <= 0
        invariant Wired() && (nextTimer == NIL || 0 <= nextTimer < node.Length) && (nextTimer == NIL <==> order == [])
          && nextTimer == After(order, 0) && (popped ==> s.list != [])
        invariant T() == if popped then Ticked(s) else Advanced(s)
        decreases |order|
      {
        At(node[..], order, nextTimer, 0);
        assert !popped;
        Fire();
        NilWhenEmpty(node[..], order, nextTimer);
        popped := true;
      }
      NilWhenEmpty(node[..], order, nextTimer);
      if order != [] {
        At(node[..], order, nextTimer, 0);
      }
    }

    method Fire()
      requires Wired() && nextTimer != NIL
      modifies this, node
      ensures |order| < old(|order|)
      ensures Wired() && old(T()).list != []
      ensures var s := old(T());
        T() == s.(list := s.list[1..], fired := s.fired + [Firing(s.list[0].ticket, s.list[0].due, s.clock)])
    {
      PopKeeps(node[..], order, nextTimer);
      var fn := node[nextTimer].fn;
      node[nextTimer] := node[nextTimer].(fn := Null);
      nextTimer := node[nextTimer].next;
      order := order[1..];
      fired := fired + [Firing(fn.ticket, fn.due, clock)];
    }
  }

  lemma At(node: seq<Node>, order: seq<int>, first: int, q: nat)
    requires Linked(node, order, first) && q < |order|
    ensures Follows(node, order, q) && EntryAt(node, order, q) == Entries(node, order)[q]
    ensures node[order[q]].next == NIL <==> q + 1 == |order|
    ensures q + 1 < |order| ==> Follows(node, order, q + 1) && order[q] != order[q + 1]
    ensures q + 1 < |order| ==> EntryAt(node, order, q + 1) == Entries(node, order)[q + 1]
  {
    assert Follows(node, order, q) && !Repeats(order, q, q + 1);
    assert q + 1 < |order| ==> Follows(node, order, q + 1);
  }

  lemma NilWhenEmpty(node: seq<Node>, order: seq<int>, first: int)
    requires Linked(node, order, first)
    ensures first == NIL <==> order == []
    ensures first == After(order, 0) && (first == NIL || 0 <= first < |node|)
  {
    assert order != [] ==> Follows(node, order, 0);
  }

  /** The tick counted, nothing fired yet. */
  function Advanced(s: Timers): Timers {
    if s.list == [] then s.(clock := s.clock + 1)
    else s.(clock := s.clock + 1, list := s.list[0 := s.list[0].(delta := s.list[0].delta - 1)])
  }

  lemma ReachedAt(l: seq<Entry>, was: seq<Entry>, asked: Entry, q: nat, e: Entry)
    requires Reached(l, was, asked, q, e)
    ensures |l| == |was| + 1 && l[q] == e && (q < |was| ==> l[q + 1] == was[q])
  {
  }
}
