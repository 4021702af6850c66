/** Wait queues (kernel/sched.c, sleep_on and wake_up_last).  A queue is one pointer;
    the other sleepers hang off the `tmp` variables on the kernel stacks of the tasks
    inside sleep_on.  A step runs from one call of schedule() to the next. */
module WaitQueue {

  const NONE: int := -1

  /** Outside sleep_on, or inside it on a queue with the saved `tmp` (NONE: NULL).
      `since` orders the entries; the kernel has no such field. */
  datatype Stack = Outside | Inside(queue: int, tmp: int, since: int)

  /** `head` per queue; `running` (state == 0) and `stack` per task. */
  datatype State = State(head: seq<int>, running: seq<bool>, stack: seq<Stack>, clock: int)

  predicate IsTask(s: State, t: int) {
    0 <= t < |s.running| && |s.running| == |s.stack|
  }

  predicate IsQueue(s: State, q: int) {
    0 <= q < |s.head|
  }

  datatype Act =
    | Sleep(t: int, q: int)   // sleep_on up to schedule()
    | Resume(t: int)          // the rest of sleep_on, once the task runs again
    | WakeUp(q: int)          // wake_up_last

  predicate CanSleep(s: State, t: int, q: int) {
    IsTask(s, t) && IsQueue(s, q) && s.running[t] && s.stack[t].Outside?
  }

  predicate CanResume(s: State, t: int) {
    IsTask(s, t) && s.running[t] && s.stack[t].Inside?
  }

  function Woken(running: seq<bool>, t: int): seq<bool> {
    if 0 <= t < |running| then running[t := true] else running
  }

  /** An act that is not possible changes nothing. */
  function Step(s: State, act: Act): State {
    match act
    case Sleep(t, q) =>
      if CanSleep(s, t, q) then
        State(s.head[q := t], s.running[t := false], s.stack[t := Inside(q, s.head[q], s.clock)], s.clock + 1)
      else s
    case Resume(t) =>
      if CanResume(s, t) then s.(running := Woken(s.running, s.stack[t].tmp), stack := s.stack[t := Outside]) else s
    case WakeUp(q) =>
      if IsQueue(s, q) then s.(running := Woken(s.running, s.head[q]), head := s.head[q := NONE]) else s
  }

  // ---- who points at whom ----

  datatype Pointer = Head(q: int) | Tmp(t: int)

  /** The pointer exists and holds task u. */
  predicate PointsTo(s: State, p: Pointer, u: int) {
    match p
    case Head(q) => IsQueue(s, q) && s.head[q] == u
    case Tmp(t) => IsTask(s, t) && s.stack[t].Inside? && s.stack[t].tmp == u
  }

  /** The queue a pointer belongs to. */
  function QueueOf(s: State, p: Pointer): int {
    match p
    case Head(q) => q
    case Tmp(t) => if IsTask(s, t) && s.stack[t].Inside? then s.stack[t].queue else NONE
  }

  predicate AsleepOn(s: State, u: int, q: int) {
    IsTask(s, u) && !s.running[u] && s.stack[u].Inside? && s.stack[u].queue == q
  }

  /** Whatever a queue head or a saved tmp holds is really asleep there. */
  ghost predicate PointersOk(s: State) {
    forall p, u :: PointsTo(s, p, u) && u != NONE ==> AsleepOn(s, u, QueueOf(s, p))
  }

  ghost predicate OnePointer(s: State) {
    forall p, r, u :: PointsTo(s, p, u) && PointsTo(s, r, u) && u != NONE ==> p == r
  }

  ghost predicate Pointed(s: State, u: int) {
    exists p :: PointsTo(s, p, u)
  }

  ghost predicate NoLostSleeper(s: State) {
    forall u :: IsTask(s, u) && !s.running[u] ==> Pointed(s, u)
  }

  ghost predicate Ordered(s: State) {
    forall t :: IsTask(s, t) && s.stack[t].Inside? ==>
      && s.stack[t].since < s.clock
      && (IsTask(s, s.stack[t].tmp) && s.stack[s.stack[t].tmp].Inside?
        ==> s.stack[s.stack[t].tmp].since < s.stack[t].since)
  }

  ghost predicate Inv(s: State) {
    && |s.running| == |s.stack|
    && PointersOk(s) && OnePointer(s) && NoLostSleeper(s) && Ordered(s)
    && (forall t :: IsTask(s, t) && s.stack[t].Outside? ==> s.running[t])
  }

  // ---- every step keeps the invariant ----

  lemma SleepPointers(s: State, t: int, q: int, p: Pointer, u: int)
    requires Inv(s) && CanSleep(s, t, q)
    ensures PointsTo(Step(s, Sleep(t, q)), p, u) <==>
      if p == Head(q) then u == t else if p == Tmp(t) then u == s.head[q] else PointsTo(s, p, u)
  {
  }

  lemma SleepKeeps(s: State, t: int, q: int)
    requires Inv(s) && CanSleep(s, t, q)
    ensures Inv(Step(s, Sleep(t, q)))
  {
    var r := Step(s, Sleep(t, q));
    assert forall p :: PointsTo(s, p, t) && t != NONE ==> AsleepOn(s, t, QueueOf(s, p));
    forall p, u | PointsTo(r, p, u) && u != NONE
      ensures AsleepOn(r, u, QueueOf(r, p))
    {
      SleepPointers(s, t, q, p, u);
      assert PointsTo(s, if p == Tmp(t) then Head(q) else p, u) || (p == Head(q) && u == t);
    }
    forall p, p', u | PointsTo(r, p, u) && PointsTo(r, p', u) && u != NONE
      ensures p == p'
    {
      SleepPointers(s, t, q, p, u);
      SleepPointers(s, t, q, p', u);
      var o, o' := if p == Tmp(t) then Head(q) else p, if p' == Tmp(t) then Head(q) else p';
      assert u != t ==> PointsTo(s, o, u) && PointsTo(s, o', u);
      assert u == t ==> !PointsTo(s, p, u) && !PointsTo(s, p', u) && s.head[q] != t;
    }
    forall u | IsTask(r, u) && !r.running[u]
      ensures Pointed(r, u)
    {
      if u == t {
        assert PointsTo(r, Head(q), u);
      } else {
        assert Pointed(s, u);
        var p :| PointsTo(s, p, u);
        SleepPointers(s, t, q, if p == Head(q) then Tmp(t) else p, u);
        assert PointsTo(r, if p == Head(q) then Tmp(t) else p, u);
      }
    }
    SleepOrdered(s, t, q);
  }

  lemma SleepOrdered(s: State, t: int, q: int)
    requires Inv(s) && CanSleep(s, t, q)
    ensures Ordered(Step(s, Sleep(t, q)))
  {
    assert PointsTo(s, Head(q), s.head[q]);
    assert !PointsTo(s, Head(q), t);
    forall x | IsTask(s, x) && s.stack[x].Inside?
      ensures s.stack[x].tmp != t
    {
      assert PointsTo(s, Tmp(x), s.stack[x].tmp);
    }
  }

  lemma ResumeKeeps(s: State, t: int)
    requires Inv(s) && CanResume(s, t)
    ensures Inv(Step(s, Resume(t)))
  {
    var r := Step(s, Resume(t));
    var v := s.stack[t].tmp;
    assert PointsTo(s, Tmp(t), v);
    assert forall p, u :: PointsTo(r, p, u) <==> p != Tmp(t) && PointsTo(s, p, u);
    forall p, u | PointsTo(r, p, u) && u != NONE
      ensures AsleepOn(r, u, QueueOf(r, p))
    {
      assert PointsTo(s, p, u) && p != Tmp(t);
      assert u != v;
      assert u != t;
    }
    forall u | IsTask(r, u) && !r.running[u]
      ensures Pointed(r, u)
    {
      assert Pointed(s, u);
      var p :| PointsTo(s, p, u);
      assert PointsTo(r, p, u);
    }
  }

  lemma WakeKeeps(s: State, q: int)
    requires Inv(s) && IsQueue(s, q)
    ensures Inv(Step(s, WakeUp(q)))
  {
    var r := Step(s, WakeUp(q));
    var h := s.head[q];
    assert PointsTo(s, Head(q), h);
    assert forall p, u :: PointsTo(r, p, u) && u != NONE ==> p != Head(q) && PointsTo(s, p, u);
    forall p, u | PointsTo(r, p, u) && u != NONE
      ensures AsleepOn(r, u, QueueOf(r, p))
    {
      assert PointsTo(s, p, u) && p != Head(q);
      assert u != h;
    }
    forall u | IsTask(r, u) && !r.running[u]
      ensures Pointed(r, u)
    {
      assert Pointed(s, u);
      var p :| PointsTo(s, p, u);
      assert PointsTo(r, p, u);
    }
  }

  lemma StepKeeps(s: State, act: Act)
    requires Inv(s)
    ensures Inv(Step(s, act))
  {
    match act
    case Sleep(t, q) => if CanSleep(s, t, q) { SleepKeeps(s, t, q); }
    case Resume(t) => if CanResume(s, t) { ResumeKeeps(s, t); }
    case WakeUp(q) => if IsQueue(s, q) { WakeKeeps(s, q); }
  }

  function Run(s: State, acts: seq<Act>): State
    decreases |acts|
  {
    if acts == [] then s else Run(Step(s, acts[0]), acts[1..])
  }

  lemma {:induction false} RunKeeps(s: State, acts: seq<Act>)
    requires Inv(s)
    ensures Inv(Run(s, acts))
    decreases |acts|
  {
    if acts != [] {
      StepKeeps(s, acts[0]);
      RunKeeps(Step(s, acts[0]), acts[1..]);
    }
  }

  /** A sleeper is held by exactly one pointer of its queue. */
  lemma SleeperHasOnePointer(s: State, u: int)
    requires Inv(s) && IsTask(s, u) && !s.running[u]
    ensures exists p :: PointsTo(s, p, u) && QueueOf(s, p) == s.stack[u].queue
    ensures forall p, r :: PointsTo(s, p, u) && PointsTo(s, r, u) ==> p == r
  {
    assert Pointed(s, u);
    var p :| PointsTo(s, p, u);
    assert AsleepOn(s, u, QueueOf(s, p));
  }

  // ---- chains ----

  /** From task r, k links through saved tmp pointers lead to u. */
  predicate Under(s: State, r: int, u: int, k: nat)
    decreases k
  {
    IsTask(s, r) && if k == 0 then r == u else s.stack[r].Inside? && Under(s, s.stack[r].tmp, u, k - 1)
  }

  /** Every sleeper of a queue hangs under the queue's head or under a task that has
      been woken and has not yet run. */
  lemma {:induction false} SleeperHasRoot(s: State, u: int) returns (r: int, k: nat)
    requires Inv(s) && IsTask(s, u) && s.stack[u].Inside?
    ensures Under(s, r, u, k) && s.stack[r].Inside? && s.stack[r].queue == s.stack[u].queue
    ensures s.running[r] || PointsTo(s, Head(s.stack[u].queue), r)
    decreases s.clock - s.stack[u].since
  {
    if s.running[u] {
      r, k := u, 0;
    } else {
      assert Pointed(s, u);
      var p :| PointsTo(s, p, u);
      assert AsleepOn(s, u, QueueOf(s, p));
      match p {
        case Head(q) =>
          r, k := u, 0;
        case Tmp(t) =>
          var j;
          r, j := SleeperHasRoot(s, t);
          k := j + 1;
          UnderExtends(s, r, t, j);
      }
    }
  }

  lemma {:induction false} UnderExtends(s: State, r: int, t: int, k: nat)
    requires Under(s, r, t, k) && IsTask(s, t) && s.stack[t].Inside? && IsTask(s, s.stack[t].tmp)
    ensures Under(s, r, s.stack[t].tmp, k + 1)
    decreases k
  {
    if k > 0 {
      UnderExtends(s, s.stack[r].tmp, t, k - 1);
    }
  }

  /** Below its root a chain consists of sleepers. */
  lemma {:induction false} ChainAsleep(s: State, r: int, u: int, k: nat)
    requires Inv(s) && Under(s, r, u, k) && k > 0
    ensures IsTask(s, s.stack[r].tmp) && IsTask(s, u) && !s.running[s.stack[r].tmp] && !s.running[u]
    decreases k
  {
    assert PointsTo(s, Tmp(r), s.stack[r].tmp);
    if k > 1 {
      ChainAsleep(s, s.stack[r].tmp, u, k - 1);
    }
  }

  /** Steps of other tasks leave a chain under its root alone. */
  lemma {:induction false} ChainStays(s: State, act: Act, r: int, u: int, k: nat)
    requires Inv(s) && Under(s, r, u, k) && (act == Resume(r) ==> !CanResume(s, r))
    ensures Under(Step(s, act), r, u, k)
    decreases k
  {
    if k > 0 {
      var v := s.stack[r].tmp;
      assert PointsTo(s, Tmp(r), v);
      ChainStays(s, act, v, u, k - 1);
    }
  }

  /** When the woken root of a chain runs, its successor becomes the woken root. */
  lemma RootHandsOver(s: State, r: int, u: int, k: nat)
    requires Inv(s) && CanResume(s, r) && Under(s, r, u, k) && k > 0
    ensures var s' := Step(s, Resume(r)); Under(s', s.stack[r].tmp, u, k - 1) && s'.running[s.stack[r].tmp]
  {
    var v := s.stack[r].tmp;
    assert PointsTo(s, Tmp(r), v);
    ResumeBelow(s, r, v, u, k - 1);
  }

  lemma {:induction false} ResumeBelow(s: State, r: int, v: int, u: int, k: nat)
    requires Inv(s) && CanResume(s, r) && Under(s, v, u, k) && !s.running[v]
    ensures Under(Step(s, Resume(r)), v, u, k)
    decreases k
  {
    if k > 0 {
      assert PointsTo(s, Tmp(v), s.stack[v].tmp);
      ResumeBelow(s, r, s.stack[v].tmp, u, k - 1);
    }
  }

  /** How often, along a run, the current woken root of a chain gets to run. */
  function RootRuns(s: State, acts: seq<Act>, r: int, k: nat): nat
    decreases |acts|
  {
    if acts == [] || k == 0 then 0
    else if acts[0] == Resume(r) && CanResume(s, r) then
      1 + RootRuns(Step(s, acts[0]), acts[1..], s.stack[r].tmp, k - 1)
    else RootRuns(Step(s, acts[0]), acts[1..], r, k)
  }

  /** u has been running at some point of the run. */
  predicate WokenDuring(s: State, acts: seq<Act>, u: int)
    decreases |acts|
  {
    (IsTask(s, u) && s.running[u]) || (acts != [] && WokenDuring(Step(s, acts[0]), acts[1..], u))
  }

  /** No lost wakeup: a task k links below a woken root is woken as soon as the
      current root has run k times, whatever else happens in between. */
  lemma {:induction false} WokenInTime(s: State, acts: seq<Act>, r: int, u: int, k: nat)
    requires Inv(s) && Under(s, r, u, k) && s.running[r] && (k > 0 ==> s.stack[r].Inside?)
    ensures RootRuns(s, acts, r, k) <= k
    ensures RootRuns(s, acts, r, k) == k ==> WokenDuring(s, acts, u)
    decreases |acts|
  {
    if acts != [] && k > 0 {
      var s' := Step(s, acts[0]);
      StepKeeps(s, acts[0]);
      if acts[0] == Resume(r) {
        RootHandsOver(s, r, u, k);
        WokenInTime(s', acts[1..], s.stack[r].tmp, u, k - 1);
      } else {
        ChainStays(s, acts[0], r, u, k);
        WokenInTime(s', acts[1..], r, u, k);
      }
    }
  }

  /** One wake_up_last starts the unwinding for every sleeper of the queue at that
      moment: each hangs under a running root, and is awake once roots ran often
      enough. */
  lemma WakeUpReachesAll(s: State, q: int, u: int, acts: seq<Act>) returns (r: int, k: nat)
    requires Inv(s) && IsQueue(s, q) && AsleepOn(s, u, q)
    ensures var s' := Step(s, WakeUp(q));
      && Under(s', r, u, k) && IsTask(s', r) && s'.running[r]
      && (RootRuns(s', acts, r, k) == k ==> WokenDuring(s', acts, u))
  {
    r, k := SleeperHasRoot(s, u);
    var s' := Step(s, WakeUp(q));
    ChainStays(s, WakeUp(q), r, u, k);
    WakeKeeps(s, q);
    WokenInTime(s', acts, r, u, k);
  }

  // ---- the code ----

  class Kernel {
    const head: array<int>
    const state: array<bool>
    const stack: array<Stack>
    /** Numbers the entries into sleep_on; only the proof looks at it. */
    var clock: int

    ghost function S(): State
      reads this, head, state, stack
    {
      State(head[..], state[..], stack[..], clock)
    }

    ghost predicate Valid()
      reads this, head, state, stack
    {
      Inv(S())
    }

    /** sleep_on(p) by task `current`, up to the call of schedule(). */
    method SleepOn(current: int, p: int)
      requires Valid() && CanSleep(S(), current, p)
      modifies this, head, state, stack
      ensures Valid() && S() == Step(old(S()), Sleep(current, p))
    {
      StepKeeps(S(), Sleep(current, p));
      var tmp := head[p];
      head[p] := current;
      state[current] := false;
      stack[current] := Inside(p, tmp, clock);
      clock := clock + 1;
      assert S() == Step(old(S()), Sleep(current, p));
    }

    /** The rest of sleep_on, when schedule() has returned: `if (tmp) tmp->state=0`. */
    method AfterSchedule(current: int)
      requires Valid() && CanResume(S(), current)
      modifies state, stack
      ensures Valid() && S() == Step(old(S()), Resume(current))
    {
      StepKeeps(S(), Resume(current));
      var tmp := stack[current].tmp;
      assert PointsTo(S(), Tmp(current), tmp);
      if tmp != NONE {
        state[tmp] := true;
      }
      stack[current] := Outside;
      assert S() == Step(old(S()), Resume(current));
    }

    method WakeUpLast(p: int)
      requires Valid() && IsQueue(S(), p)
      modifies head, state
      ensures Valid() && S() == Step(old(S()), WakeUp(p))
    {
      StepKeeps(S(), WakeUp(p));
      assert PointsTo(S(), Head(p), head[p]);
      if head[p] != NONE {
        state[head[p]] := true;
        head[p] := NONE;
      }
      assert S() == Step(old(S()), WakeUp(p));
    }
  }

  /** Empty queues and running tasks to start with. */
  lemma InitInv(s: State)
    requires |s.running| == |s.stack| && (forall q :: IsQueue(s, q) ==> s.head[q] == NONE)
    requires forall t :: IsTask(s, t) ==> s.running[t] && s.stack[t].Outside?
    ensures Inv(s)
  {
  }
}
