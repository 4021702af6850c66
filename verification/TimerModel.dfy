/** The delta list of kernel/sched.c as a list of values: what add_timer and the
    timer part of do_timer do to it, and when things fire. */
module TimerModel {

  /** `ticket` numbers the requests and `due` is the tick asked for; the code keeps
      neither, only the function to call. */
  datatype Entry = Entry(delta: int, ticket: nat, due: int)

  datatype Firing = Firing(ticket: nat, due: int, at: int)

  /** `clock` counts ticks, `issued` requests. */
  datatype Timers = Timers(list: seq<Entry>, clock: int, fired: seq<Firing>, issued: nat)

  /** add_timer's loop: the newcomer moves past entries with smaller deltas, paying
      for them out of its own; the entry it stops before is not shortened. */
  function Insert(l: seq<Entry>, e: Entry): (r: seq<Entry>)
    ensures |r| == |l| + 1
    decreases |l|
  {
    if l == [] || l[0].delta >= e.delta then [e] + l
    else [l[0]] + Insert(l[1..], e.(delta := e.delta - l[0].delta))
  }

  /** Ticks until entry k fires, if nothing more is inserted before it. */
  function Remaining(l: seq<Entry>, k: nat): int
    requires k < |l|
    decreases k
  {
    if k == 0 then l[0].delta else l[0].delta + Remaining(l[1..], k - 1)
  }

  ghost predicate Positive(l: seq<Entry>) {
    forall k :: 0 <= k < |l| ==> l[k].delta >= 1
  }

  ghost predicate NotEarly(l: seq<Entry>, clock: int) {
    forall k :: 0 <= k < |l| ==> clock + Remaining(l, k) >= l[k].due
  }

  function Pending(l: seq<Entry>): multiset<nat> {
    if l == [] then multiset{} else multiset{l[0].ticket} + Pending(l[1..])
  }

  function Gone(f: seq<Firing>): multiset<nat> {
    if f == [] then multiset{} else Gone(f[..|f| - 1]) + multiset{f[|f| - 1].ticket}
  }

  function Issued(n: nat): multiset<nat> {
    if n == 0 then multiset{} else Issued(n - 1) + multiset{n - 1}
  }

  /** Every request is either waiting or has fired, once, and not before its time. */
  ghost predicate Inv(s: Timers) {
    && Positive(s.list) && NotEarly(s.list, s.clock)
    && (forall k :: 0 <= k < |s.fired| ==> s.fired[k].due <= s.fired[k].at <= s.clock)
    && Pending(s.list) + Gone(s.fired) == Issued(s.issued)
  }

  function Added(s: Timers, delay: int): Timers {
    if delay <= 0 then
      s.(fired := s.fired + [Firing(s.issued, s.clock + delay, s.clock)], issued := s.issued + 1)
    else
      s.(list := Insert(s.list, Entry(delay, s.issued, s.clock + delay)), issued := s.issued + 1)
  }

  function Ticked(s: Timers): Timers {
    var now := s.clock + 1;
    if s.list == [] then s.(clock := now)
    else if s.list[0].delta <= 1 then
      s.(list := s.list[1..], clock := now, fired := s.fired + [Firing(s.list[0].ticket, s.list[0].due, now)])
    else s.(list := s.list[0 := s.list[0].(delta := s.list[0].delta - 1)], clock := now)
  }

  // ---- insertion ----

  /** Where the newcomer ends up. */
  function Place(l: seq<Entry>, e: Entry): (q: nat)
    ensures q <= |l| && Insert(l, e)[q].ticket == e.ticket && Insert(l, e)[q].due == e.due
    decreases |l|
  {
    if l == [] || l[0].delta >= e.delta then 0 else 1 + Place(l[1..], e.(delta := e.delta - l[0].delta))
  }

  /** The newcomer fires exactly when asked; those before it are not disturbed; those
      behind it are late by its own remaining delta, no more and no less. */
  lemma {:induction false} InsertTimes(l: seq<Entry>, e: Entry, k: nat)
    requires Positive(l) && e.delta >= 1 && k <= |l|
    ensures Insert(l, e)[k].delta >= 1
    ensures var r, q := Insert(l, e), Place(l, e);
            if k < q then r[k] == l[k] && Remaining(r, k) == Remaining(l, k)
            else if k == q then Remaining(r, k) == e.delta
            else r[k] == l[k - 1] && Remaining(r, k) == Remaining(l, k - 1) + r[q].delta
    decreases |l|
  {
    hide Remaining;
    var r, q := Insert(l, e), Place(l, e);
    if l == [] || l[0].delta >= e.delta {
      assert r == [e] + l && q == 0;
      hide Insert, Place;
      Cons(e, l, k);
    } else {
      var t, f := l[1..], e.(delta := e.delta - l[0].delta);
      var u := Insert(t, f);
      assert r == [l[0]] + u && l == [l[0]] + t && q == 1 + Place(t, f);
      hide Insert, Place;
      Cons(l[0], u, k);
      if k > 0 {
        InsertTimes(t, f, k - 1);
      }
      if k < q {
        Cons(l[0], t, k);
      } else if k > q {
        Cons(l[0], t, k - 1);
      }
    }
  }

  /** What is left of a delay of `d` ticks once the newcomer has found its place. */
  function Own(l: seq<Entry>, d: int): (r: int)
    ensures d >= 1 ==> 1 <= r
    decreases |l|
  {
    if l == [] || l[0].delta >= d then d else Own(l[1..], d - l[0].delta)
  }

  /** A newcomer comes before entry k exactly when it asks for no more than entry k
      still has to wait. */
  lemma {:induction false} PlaceBefore(l: seq<Entry>, e: Entry, k: nat)
    requires Positive(l) && e.delta >= 1 && k < |l|
    ensures Place(l, e) <= k <==> e.delta <= Remaining(l, k)
    ensures Insert(l, e)[Place(l, e)].delta == Own(l, e.delta)
    decreases |l|
  {
    RemainingPositive(l, k);
    if k > 0 {
      RemainingPositive(l[1..], k - 1);
      if l[0].delta < e.delta {
        PlaceBefore(l[1..], e.(delta := e.delta - l[0].delta), k - 1);
      }
    } else {
      OwnDelta(l, e);
    }
  }

  lemma {:induction false} OwnDelta(l: seq<Entry>, e: Entry)
    ensures Insert(l, e)[Place(l, e)].delta == Own(l, e.delta)
    decreases |l|
  {
    if l != [] && l[0].delta < e.delta {
      OwnDelta(l[1..], e.(delta := e.delta - l[0].delta));
    }
  }

  lemma Cons(x: Entry, t: seq<Entry>, k: nat)
    requires k <= |t|
    ensures Remaining([x] + t, k) == x.delta + (if k == 0 then 0 else Remaining(t, k - 1))
  {
    assert ([x] + t)[1..] == t;
  }

  lemma {:induction false} InsertPending(l: seq<Entry>, e: Entry)
    ensures Pending(Insert(l, e)) == Pending(l) + multiset{e.ticket}
    decreases |l|
  {
    var r := Insert(l, e);
    if l == [] || l[0].delta >= e.delta {
      assert r[1..] == l;
    } else {
      var f := e.(delta := e.delta - l[0].delta);
      InsertPending(l[1..], f);
      assert r[1..] == Insert(l[1..], f);
    }
  }

  lemma InsertKeeps(l: seq<Entry>, e: Entry, clock: int)
    requires Positive(l) && NotEarly(l, clock) && e.delta >= 1 && clock + e.delta >= e.due
    ensures Positive(Insert(l, e)) && NotEarly(Insert(l, e), clock)
  {
    var r, q := Insert(l, e), Place(l, e);
    forall k | 0 <= k < |r|
      ensures r[k].delta >= 1 && clock + Remaining(r, k) >= r[k].due
    {
      hide Insert, Place, Remaining;
      InsertTimes(l, e, k);
      if k > q {
        InsertTimes(l, e, q);
      }
    }
  }

  lemma AddedAll(s: Timers, r: Timers)
    requires Pending(s.list) + Gone(s.fired) == Issued(s.issued) && r.issued == s.issued + 1
    requires Pending(r.list) + Gone(r.fired) == Pending(s.list) + Gone(s.fired) + multiset{s.issued}
    ensures Pending(r.list) + Gone(r.fired) == Issued(r.issued)
  {
  }

  lemma AddedKeeps(s: Timers, delay: int)
    requires Inv(s)
    ensures Inv(Added(s, delay))
  {
    hide Insert, NotEarly, Positive, Pending, Issued;
    var r := Added(s, delay);
    if delay <= 0 {
      assert r.fired[..|r.fired| - 1] == s.fired;
    } else {
      var e := Entry(delay, s.issued, s.clock + delay);
      InsertPending(s.list, e);
      InsertKeeps(s.list, e, s.clock);
    }
    AddedAll(s, r);
  }

  // ---- ticks ----

  lemma {:induction false} RemainingPositive(l: seq<Entry>, k: nat)
    requires Positive(l) && k < |l|
    ensures Remaining(l, k) >= k + 1
    decreases k
  {
    if k > 0 {
      RemainingPositive(l[1..], k - 1);
    }
  }

  /** After a tick every entry is one tick nearer, the first one gone if it has run out. */
  lemma TickedTimes(l: seq<Entry>, k: nat)
    requires k < |l|
    ensures k > 0 ==> Remaining(l, k) == l[0].delta + Remaining(l[1..], k - 1) && l[k] == l[1..][k - 1]
    ensures Remaining(l[0 := l[0].(delta := l[0].delta - 1)], k) == Remaining(l, k) - 1
  {
    assert l[0 := l[0].(delta := l[0].delta - 1)][1..] == l[1..];
  }

  lemma TickedList(s: Timers)
    requires Positive(s.list) && NotEarly(s.list, s.clock)
    ensures Positive(Ticked(s).list) && NotEarly(Ticked(s).list, Ticked(s).clock)
  {
    var r, l := Ticked(s), s.list;
    forall k | 0 <= k < |r.list|
      ensures r.list[k].delta >= 1 && r.clock + Remaining(r.list, k) >= r.list[k].due
    {
      hide Remaining;
      if l[0].delta <= 1 {
        TickedTimes(l, k + 1);
        assert s.clock + Remaining(l, k + 1) >= l[k + 1].due && l[k + 1].delta >= 1;
      } else {
        TickedTimes(l, k);
        assert s.clock + Remaining(l, k) >= l[k].due && l[k].delta >= 1;
      }
    }
  }

  lemma TickedKeeps(s: Timers)
    requires Inv(s)
    ensures Inv(Ticked(s))
    ensures |Ticked(s).fired| <= |s.fired| + 1
  {
    hide Positive, NotEarly, Pending, Gone, Issued, Remaining;
    TickedList(s);
    TickedTickets(s);
    if s.list != [] && s.list[0].delta <= 1 {
      FirstDue(s);
    }
  }

  lemma TickedTickets(s: Timers)
    ensures Pending(Ticked(s).list) + Gone(Ticked(s).fired) == Pending(s.list) + Gone(s.fired)
  {
    var r := Ticked(s);
    if s.list != [] && s.list[0].delta <= 1 {
      assert r.fired[..|r.fired| - 1] == s.fired;
      TicketMoves(Pending(r.list), Gone(s.fired), s.list[0].ticket);
    } else if s.list != [] {
      assert r.list[1..] == s.list[1..];
    }
  }

  lemma TicketMoves(p: multiset<nat>, g: multiset<nat>, t: nat)
    ensures p + (g + multiset{t}) == (multiset{t} + p) + g
  {
  }

  lemma FirstDue(s: Timers)
    requires Positive(s.list) && NotEarly(s.list, s.clock) && s.list != [] && s.list[0].delta <= 1
    ensures s.list[0].due <= s.clock + 1
  {
    assert Remaining(s.list, 0) == 1;
  }

  // ---- whole runs ----

  datatype Event = Tick | Add(delay: int)

  function Step(s: Timers, e: Event): Timers {
    match e
    case Tick => Ticked(s)
    case Add(d) => Added(s, d)
  }

  function Steps(s: Timers, events: seq<Event>): Timers {
    if events == [] then s else Step(Steps(s, events[..|events| - 1]), events[|events| - 1])
  }

  lemma {:induction false} StepsKeep(s: Timers, events: seq<Event>)
    requires Inv(s)
    ensures Inv(Steps(s, events))
    decreases |events|
  {
    if events != [] {
      StepsKeep(s, events[..|events| - 1]);
      var m := Steps(s, events[..|events| - 1]);
      match events[|events| - 1]
      case Tick => TickedKeeps(m);
      case Add(d) => AddedKeeps(m, d);
    }
  }

  lemma {:induction false} GoneCount(f: seq<Firing>, t: nat)
    ensures Gone(f)[t] > 0 <==> exists k :: 0 <= k < |f| && f[k].ticket == t
    decreases |f|
  {
    if f != [] {
      var g := f[..|f| - 1];
      GoneCount(g, t);
      if k :| 0 <= k < |f| && f[k].ticket == t {
        assert k < |g| ==> g[k].ticket == t;
      }
      if k :| 0 <= k < |g| && g[k].ticket == t {
        assert f[k].ticket == t;
      }
    }
  }

  lemma {:induction false} GoneTwice(f: seq<Firing>, i: nat, j: nat)
    requires i < j < |f| && f[i].ticket == f[j].ticket
    ensures Gone(f)[f[i].ticket] >= 2
    decreases |f|
  {
    var g := f[..|f| - 1];
    if j == |f| - 1 {
      assert g[i].ticket == f[i].ticket;
      GoneCount(g, f[i].ticket);
    } else {
      assert g[i] == f[i] && g[j] == f[j];
      GoneTwice(g, i, j);
    }
  }

  lemma {:induction false} IssuedOnce(n: nat, t: nat)
    ensures Issued(n)[t] == if t < n then 1 else 0
  {
    if n > 0 {
      IssuedOnce(n - 1, t);
    }
  }

  /** No request fires twice, and none before the tick it asked for. */
  lemma FiresOnce(s: Timers, i: nat, j: nat)
    requires Inv(s) && i < |s.fired| && j < |s.fired| && s.fired[i].ticket == s.fired[j].ticket
    ensures i == j && s.fired[i].ticket < s.issued && s.fired[i].at >= s.fired[i].due
  {
    var t := s.fired[i].ticket;
    IssuedOnce(s.issued, t);
    GoneCount(s.fired, t);
    assert (Pending(s.list) + Gone(s.fired))[t] == Pending(s.list)[t] + Gone(s.fired)[t];
    if i < j {
      GoneTwice(s.fired, i, j);
    } else if j < i {
      GoneTwice(s.fired, j, i);
    }
  }

  /** An entry with one tick left fires at the next tick. */
  lemma LastTick(m: Timers, p: nat)
    requires Positive(m.list) && p < |m.list| && Remaining(m.list, p) == 1
    ensures Ticked(m).fired == m.fired + [Firing(m.list[p].ticket, m.list[p].due, m.clock + 1)]
  {
    RemainingPositive(m.list, p);
  }

  // ---- when an entry fires, whatever is added meanwhile ----

  predicate Delays(l: seq<Entry>, k: nat, d: int)
    requires k < |l|
  {
    1 <= d <= Remaining(l, k)
  }

  /** The ticks by which Add(d) puts off entry k. */
  function Late(l: seq<Entry>, k: nat, d: int): int
    requires k < |l|
  {
    if Delays(l, k, d) then Own(l, d) else 0
  }

  /** Where entry k is after the event, if it is still waiting. */
  function Spot(l: seq<Entry>, k: nat, e: Event): nat
    requires k < |l|
  {
    match e
    case Tick => if l[0].delta <= 1 && k > 0 then k - 1 else k
    case Add(d) => if Delays(l, k, d) then k + 1 else k
  }

  ghost predicate SameRequest(l: seq<Entry>, k: nat, m: seq<Entry>, q: nat) {
    k < |l| && q < |m| && l[k].ticket == m[q].ticket && l[k].due == m[q].due
  }

  lemma Behind(l: seq<Entry>, e: Entry, k: nat)
    requires Positive(l) && e.delta >= 1 && k < |l| && e.delta <= Remaining(l, k)
    ensures Insert(l, e)[k + 1] == l[k] && Remaining(Insert(l, e), k + 1) == Remaining(l, k) + Own(l, e.delta)
  {
    hide Insert, Place, Remaining, Own, Positive;
    PlaceBefore(l, e, k);
    InsertTimes(l, e, k + 1);
  }

  lemma Ahead(l: seq<Entry>, e: Entry, k: nat)
    requires Positive(l) && e.delta >= 1 && k < |l| && e.delta > Remaining(l, k)
    ensures Insert(l, e)[k] == l[k] && Remaining(Insert(l, e), k) == Remaining(l, k)
  {
    hide Insert, Place, Remaining, Own, Positive;
    PlaceBefore(l, e, k);
    InsertTimes(l, e, k);
  }

  /** An addition delays entry k exactly when it asks for at most the time entry k has
      left, and then by what is left of the newcomer's own delay. */
  lemma AddedTimes(s: Timers, k: nat, d: int)
    requires Positive(s.list) && k < |s.list|
    ensures SameRequest(s.list, k, Added(s, d).list, Spot(s.list, k, Add(d)))
    ensures Remaining(Added(s, d).list, Spot(s.list, k, Add(d))) == Remaining(s.list, k) + Late(s.list, k, d)
    ensures Late(s.list, k, d) > 0 <==> Delays(s.list, k, d)
    ensures Added(s, d).clock == s.clock
  {
    if d >= 1 {
      hide Insert, Place, Remaining, Own, Positive;
      var e := Entry(d, s.issued, s.clock + d);
      if Delays(s.list, k, d) {
        Behind(s.list, e, k);
      } else {
        Ahead(s.list, e, k);
      }
    }
  }

  /** The sum of the delays before entry k fires. */
  function Slips(s: Timers, k: nat, events: seq<Event>): int
    requires Positive(s.list) && k < |s.list|
    decreases |events|
  {
    if events == [] then 0
    else
      match events[0]
      case Tick =>
        if Remaining(s.list, k) == 1 then 0
        else (TickedSpot(s, k); Slips(Ticked(s), Spot(s.list, k, Tick), events[1..]))
      case Add(d) =>
        AddedTimes(s, k, d); AddedPositive(s, d);
        Late(s.list, k, d) + Slips(Added(s, d), Spot(s.list, k, Add(d)), events[1..])
  }

  /** No addition before entry k fires asks for at most the time it has left: a test
      that can be made at each call. */
  ghost predicate Undelayed(s: Timers, k: nat, events: seq<Event>)
    requires Positive(s.list) && k < |s.list|
    decreases |events|
  {
    events == [] ||
    match events[0]
    case Tick =>
      Remaining(s.list, k) == 1 || (TickedSpot(s, k); Undelayed(Ticked(s), Spot(s.list, k, Tick), events[1..]))
    case Add(d) =>
      AddedTimes(s, k, d); AddedPositive(s, d);
      !Delays(s.list, k, d) && Undelayed(Added(s, d), Spot(s.list, k, Add(d)), events[1..])
  }

  lemma {:induction false} SlipsNone(s: Timers, k: nat, events: seq<Event>)
    requires Positive(s.list) && k < |s.list|
    ensures Slips(s, k, events) >= 0 && (Slips(s, k, events) == 0 <==> Undelayed(s, k, events))
    decreases |events|
  {
    hide Remaining, Own, Insert, Positive;
    if events != [] {
      match events[0]
      case Tick =>
        if Remaining(s.list, k) != 1 {
          TickedSpot(s, k);
          SlipsNone(Ticked(s), Spot(s.list, k, Tick), events[1..]);
        }
      case Add(d) =>
        AddedTimes(s, k, d);
        AddedPositive(s, d);
        SlipsNone(Added(s, d), Spot(s.list, k, Add(d)), events[1..]);
    }
  }

  lemma AddedPositive(s: Timers, d: int)
    requires Positive(s.list)
    ensures Positive(Added(s, d).list)
  {
    if d >= 1 {
      var e := Entry(d, s.issued, s.clock + d);
      forall k | 0 <= k < |Insert(s.list, e)|
        ensures Insert(s.list, e)[k].delta >= 1
      {
        InsertTimes(s.list, e, k);
      }
    }
  }

  lemma TickedSpot(s: Timers, k: nat)
    requires Positive(s.list) && k < |s.list| && Remaining(s.list, k) != 1
    ensures Positive(Ticked(s).list) && SameRequest(s.list, k, Ticked(s).list, Spot(s.list, k, Tick))
    ensures Remaining(Ticked(s).list, Spot(s.list, k, Tick)) == Remaining(s.list, k) - 1
    ensures Ticked(s).clock == s.clock + 1
  {
    RemainingPositive(s.list, k);
    TickedTimes(s.list, k);
  }

  function TicksIn(events: seq<Event>): nat {
    if events == [] then 0 else (if events[0].Tick? then 1 else 0) + TicksIn(events[1..])
  }

  lemma {:induction false} StepsFrom(s: Timers, events: seq<Event>)
    requires events != []
    ensures Steps(s, events) == Steps(Step(s, events[0]), events[1..])
    decreases |events|
  {
    var n := |events| - 1;
    if n > 0 {
      StepsFrom(s, events[..n]);
      assert events[..n][1..] == events[1..][..n - 1];
    } else {
      assert events[..n] == [] && events[1..] == [];
    }
  }

  lemma {:induction false} FiredGrows(s: Timers, events: seq<Event>)
    ensures s.fired <= Steps(s, events).fired
    decreases |events|
  {
    if events != [] {
      FiredGrows(s, events[..|events| - 1]);
    }
  }

  /** In any run an entry fires exactly when its remaining time and the sum of its
      delays have passed, and until then that much is left of its wait. */
  lemma {:induction false} FiresWhen(s: Timers, k: nat, events: seq<Event>) returns (p: nat)
    requires Positive(s.list) && k < |s.list|
    ensures TicksIn(events) >= Remaining(s.list, k) + Slips(s, k, events) ==>
      Firing(s.list[k].ticket, s.list[k].due, s.clock + Remaining(s.list, k) + Slips(s, k, events))
        in Steps(s, events).fired
    ensures TicksIn(events) < Remaining(s.list, k) + Slips(s, k, events) ==>
      && SameRequest(s.list, k, Steps(s, events).list, p)
      && Remaining(Steps(s, events).list, p) == Remaining(s.list, k) + Slips(s, k, events) - TicksIn(events)
    decreases |events|
  {
    hide Remaining, Own, Insert, Positive, Steps, Delays;
    p := k;
    RemainingPositive(s.list, k);
    if events == [] {
      StepsNone(s);
      return;
    }
    StepsFrom(s, events);
    FiredGrows(Step(s, events[0]), events[1..]);
    match events[0]
    case Tick =>
      if Remaining(s.list, k) == 1 {
        LastTick(s, k);
        assert Ticked(s).fired[|s.fired|] in Steps(s, events).fired;
      } else {
        TickedSpot(s, k);
        p := FiresWhen(Ticked(s), Spot(s.list, k, Tick), events[1..]);
      }
    case Add(d) =>
      AddedTimes(s, k, d);
      AddedPositive(s, d);
      p := FiresWhen(Added(s, d), Spot(s.list, k, Add(d)), events[1..]);
  }

  lemma StepsNone(s: Timers)
    ensures Steps(s, []) == s
  {
  }

  /** A request for `d` ticks fires at its tick plus its delays, given enough ticks: on
      time exactly when no addition before that delays it. */
  lemma FiresOnTime(s: Timers, d: int, events: seq<Event>)
    requires Inv(s) && d >= 1
    ensures Place(s.list, Entry(d, s.issued, s.clock + d)) < |Added(s, d).list| && Positive(Added(s, d).list)
    ensures
      var late := Slips(Added(s, d), Place(s.list, Entry(d, s.issued, s.clock + d)), events);
      && late >= 0
      && (late == 0 <==> Undelayed(Added(s, d), Place(s.list, Entry(d, s.issued, s.clock + d)), events))
      && (TicksIn(events) >= d + late ==>
            Firing(s.issued, s.clock + d, s.clock + d + late) in Steps(Added(s, d), events).fired)
  {
    hide Remaining, Steps, Undelayed;
    var e := Entry(d, s.issued, s.clock + d);
    var q := Place(s.list, e);
    AddedPositive(s, d);
    InsertTimes(s.list, e, q);
    SlipsNone(Added(s, d), q, events);
    var p := FiresWhen(Added(s, d), q, events);
  }

  // ---- a request that never fires ----

  /** n rounds of a one-tick request and a tick. */
  function Rounds(n: nat): seq<Event> {
    if n == 0 then [] else Rounds(n - 1) + [Add(1), Tick]
  }

  lemma OneRound(m: Timers)
    requires Positive(m.list)
    ensures Ticked(Added(m, 1)) == m.(clock := m.clock + 1, issued := m.issued + 1,
                                      fired := m.fired + [Firing(m.issued, m.clock + 1, m.clock + 1)])
  {
    var e := Entry(1, m.issued, m.clock + 1);
    assert Insert(m.list, e) == [e] + m.list;
    assert ([e] + m.list)[1..] == m.list;
  }

  /** Such rounds go by without any waiting entry coming nearer: each newcomer is put
      before the head and does not shorten it. */
  lemma {:induction false} Starves(s: Timers, n: nat)
    requires Positive(s.list)
    ensures Steps(s, Rounds(n)).list == s.list && Steps(s, Rounds(n)).clock == s.clock + n
    ensures Steps(s, Rounds(n)).issued == s.issued + n == s.issued + |Steps(s, Rounds(n)).fired| - |s.fired|
  {
    if n > 0 {
      hide Insert, Positive, Ticked, Added;
      var events := Rounds(n);
      assert events[..|events| - 1] == Rounds(n - 1) + [Add(1)];
      assert (Rounds(n - 1) + [Add(1)])[..|Rounds(n - 1)|] == Rounds(n - 1);
      Starves(s, n - 1);
      OneRound(Steps(s, Rounds(n - 1)));
      assert Steps(s, Rounds(n - 1) + [Add(1)]) == Added(Steps(s, Rounds(n - 1)), 1);
    }
  }

  lemma InvPositive(m: Timers)
    requires Inv(m)
    ensures Positive(m.list)
  {
  }
}
