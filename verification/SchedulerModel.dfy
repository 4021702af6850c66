/** The task table as schedule(), do_timer, sys_nice and fork in kernel/ see it. */
module SchedulerModel {

  const NR_TASKS: int := 64
  const SIGKILL: int := 9
  const SIGALRM: int := 14
  const SIGSTOP: int := 19

  datatype RunState = Running | Interruptible | Uninterruptible | Zombie | Stopped

  /** A slot of task[]; `present` is the pointer being non-NULL. `peak` is the largest
      priority the task has had, which the code does not keep. */
  datatype Task = Task(present: bool, state: RunState, counter: int, priority: int, peak: int,
                       alarm: int, signal: set<int>, blocked: set<int>)

  datatype Sched = Sched(task: seq<Task>, current: int, jiffies: int)

  predicate Sound(t: Task) {
    t.present ==> 1 <= t.priority <= t.peak && 0 <= t.counter < 2 * t.peak
  }

  ghost predicate Inv(s: Sched) {
    && |s.task| == NR_TASKS && 0 <= s.current < NR_TASKS
    && s.task[0].present && s.task[s.current].present
    && (forall i :: 0 <= i < NR_TASKS ==> Sound(s.task[i]))
  }

  predicate Runnable(t: Task) {
    t.present && t.state == Running
  }

  // ---- schedule() ----

  /** The first loop: alarms that are due, and sleepers with a signal. */
  function Prodded(t: Task, now: int): Task {
    if !t.present then t else
    var rings := t.alarm != 0 && t.alarm < now;
    var a := if rings then t.(signal := t.signal + {SIGALRM}, alarm := 0) else t;
    if a.signal - (a.blocked - {SIGKILL, SIGSTOP}) != {} && a.state == Interruptible then a.(state := Running) else a
  }

  function ProddedAll(task: seq<Task>, now: int): seq<Task> {
    seq(|task|, i requires 0 <= i < |task| => if i > 0 then Prodded(task[i], now) else task[i])
  }

  function Recharged(t: Task): Task {
    if t.present then t.(counter := t.counter / 2 + t.priority) else t
  }

  function RechargedAll(task: seq<Task>): seq<Task> {
    seq(|task|, i requires 0 <= i < |task| => if i > 0 then Recharged(task[i]) else task[i])
  }

  datatype Pick = Pick(c: int, next: int)

  /** The search, once slots i.. have been looked at. */
  function Scan(task: seq<Task>, i: nat): Pick
    requires 1 <= i <= |task|
    decreases |task| - i
  {
    if i == |task| then Pick(-1, 0)
    else
      var p := Scan(task, i + 1);
      if Runnable(task[i]) && task[i].counter > p.c then Pick(task[i].counter, i) else p
  }

  /** The meaning of schedule(): the pass after a recharge cannot fail. */
  function Scheduled(s: Sched): Sched
    requires |s.task| >= 1
  {
    var task := ProddedAll(s.task, s.jiffies);
    var p := Scan(task, 1);
    if p.c != 0 then s.(task := task, current := p.next)
    else s.(task := RechargedAll(task), current := Scan(RechargedAll(task), 1).next)
  }

  /** The pick is the runnable task with the largest counter, the last slot among
      equals, and slot 0 exactly when nothing else can run. */
  lemma {:induction false} ScanBest(task: seq<Task>, i: nat)
    requires 1 <= i <= |task|
    requires forall k :: i <= k < |task| && task[k].present ==> task[k].counter >= 0
    ensures var p := Scan(task, i);
            if p.next == 0 then p.c == -1 && (forall k :: i <= k < |task| ==> !Runnable(task[k]))
            else i <= p.next < |task| && Runnable(task[p.next]) && task[p.next].counter == p.c
                 && (forall k ::
                       i <= k < |task| && Runnable(task[k]) ==>
                         task[k].counter <= p.c && (task[k].counter == p.c ==> k <= p.next))
    decreases |task| - i
  {
    if i < |task| {
      ScanBest(task, i + 1);
    }
  }

  /** After a recharge somebody who could run has a positive counter. */
  lemma RechargeSuffices(task: seq<Task>)
    requires |task| >= 1 && (forall k :: 0 <= k < |task| ==> Sound(task[k]))
    requires Scan(task, 1).c == 0
    ensures Scan(RechargedAll(task), 1).c > 0
    ensures forall k :: 0 <= k < |task| ==> Sound(RechargedAll(task)[k])
  {
    ScanBest(task, 1);
    var r := RechargedAll(task);
    ScanBest(r, 1);
    var n := Scan(task, 1).next;
    assert Runnable(task[n]) && Runnable(r[n]) && r[n].counter >= 1;
  }

  lemma ScheduledKeeps(s: Sched)
    requires Inv(s)
    ensures Inv(Scheduled(s))
    ensures var r := Scheduled(s); r.current != 0 ==> Runnable(r.task[r.current]) && r.task[r.current].counter > 0
    ensures var r := Scheduled(s); forall k :: 0 < k < NR_TASKS && Runnable(r.task[k]) ==>
              r.current != 0 && (r.task[k].counter < r.task[r.current].counter
                || (r.task[k].counter == r.task[r.current].counter && k <= r.current))
  {
    var task := ProddedAll(s.task, s.jiffies);
    assert forall k :: 0 <= k < NR_TASKS ==> Sound(task[k]);
    ScanBest(task, 1);
    if Scan(task, 1).c == 0 {
      RechargeSuffices(task);
      ScanBest(RechargedAll(task), 1);
    }
  }

  // ---- the other events ----

  /** do_timer's last lines, and whether they end in schedule(). */
  function Charged(s: Sched): Sched
    requires 0 <= s.current < |s.task|
  {
    var t := s.task[s.current];
    s.(task := s.task[s.current := t.(counter := if t.counter - 1 > 0 then t.counter - 1 else 0)],
      jiffies := s.jiffies + 1)
  }

  function Ticked(s: Sched, user: bool): Sched
    requires 0 <= s.current < |s.task|
  {
    var c := Charged(s);
    if user && c.task[s.current].counter == 0 then Scheduled(c) else c
  }

  function Niced(t: Task, increment: int): Task {
    if t.priority - increment > 0 then
      var p := t.priority - increment;
      t.(priority := p, peak := if p > t.peak then p else t.peak)
    else t
  }

  function Child(t: Task): Task {
    Task(true, Running, t.priority, t.priority, t.priority, 0, {}, t.blocked)
  }

  datatype Event =
    | Tick(user: bool)
    | Yield
    | SetState(i: int, state: RunState)
    | Signal(i: int, signal: set<int>, blocked: set<int>)
    | Alarm(i: int, alarm: int)
    | Nice(increment: int)
    | Fork(i: int)
    | Release(i: int)

  predicate Enabled(s: Sched, e: Event)
    requires 0 <= s.current < |s.task|
  {
    match e
    case Tick(_) => true
    case Yield => true
    case SetState(i, _) => 0 < i < |s.task| && s.task[i].present
    case Signal(i, _, _) => 0 < i < |s.task| && s.task[i].present
    case Alarm(i, _) => 0 < i < |s.task| && s.task[i].present
    case Nice(_) => true
    case Fork(i) => 0 < i < |s.task| && !s.task[i].present
    case Release(i) => 0 < i < |s.task| && s.task[i].present && i != s.current
  }

  /** Events that cannot happen leave the table alone. */
  function Step(s: Sched, e: Event): Sched
    requires 0 <= s.current < |s.task|
  {
    if !Enabled(s, e) then s else
    match e
    case Tick(user) => Ticked(s, user)
    case Yield => Scheduled(s)
    case SetState(i, st) => s.(task := s.task[i := s.task[i].(state := st)])
    case Signal(i, sig, blk) => s.(task := s.task[i := s.task[i].(signal := sig, blocked := blk)])
    case Alarm(i, a) => s.(task := s.task[i := s.task[i].(alarm := a)])
    case Nice(n) => s.(task := s.task[s.current := Niced(s.task[s.current], n)])
    case Fork(i) => s.(task := s.task[i := Child(s.task[s.current])])
    case Release(i) => s.(task := s.task[i := s.task[i].(present := false)])
  }

  lemma StepKeeps(s: Sched, e: Event)
    requires Inv(s)
    ensures Inv(Step(s, e))
  {
    if e == Yield {
      ScheduledKeeps(s);
    } else if e.Tick? {
      assert Inv(Charged(s));
      ScheduledKeeps(Charged(s));
    }
  }

  // ---- how long a runnable task can wait ----

  function Sum(task: seq<Task>): int {
    if task == [] then 0
    else Sum(task[..|task| - 1]) + (if task[|task| - 1].present then task[|task| - 1].counter else 0)
  }

  function Share(t: Task): int {
    if t.present then t.counter else 0
  }

  lemma {:induction false} SumUpdate(task: seq<Task>, i: nat, t: Task)
    requires i < |task|
    ensures Sum(task[i := t]) == Sum(task) - Share(task[i]) + Share(t)
    decreases |task|
  {
    var n := |task| - 1;
    if i < n {
      SumUpdate(task[..n], i, t);
      assert task[i := t][..n] == task[..n][i := t];
    } else {
      assert task[i := t][..n] == task[..n];
    }
  }

  lemma {:induction false} SumSame(a: seq<Task>, b: seq<Task>)
    requires |a| == |b| && (forall i :: 0 <= i < |a| ==> Share(a[i]) <= Share(b[i]))
    ensures Sum(a) <= Sum(b)
    decreases |a|
  {
    if a != [] {
      assert Share(a[|a| - 1]) <= Share(b[|a| - 1]);
      SumSame(a[..|a| - 1], b[..|a| - 1]);
    }
  }

  /** Twice the ticks still to be spent, and one more when the running task has none. */
  function Potential(s: Sched): int
    requires 0 <= s.current < |s.task|
  {
    2 * Sum(s.task) + (if s.task[s.current].counter == 0 then 1 else 0)
  }

  function UserTicks(events: seq<Event>): nat {
    if events == [] then 0 else (if events[0] == Tick(true) then 1 else 0) + UserTicks(events[1..])
  }

  /** Task t could run at every moment of the run and never did, and nobody forked. */
  ghost predicate Waiting(s: Sched, t: int, events: seq<Event>)
    requires Inv(s) && 0 < t < NR_TASKS
    decreases |events|
  {
    && Runnable(s.task[t]) && s.current != t
    && (events != [] ==> !events[0].Fork? && (StepKeeps(s, events[0]); Waiting(Step(s, events[0]), t, events[1..])))
  }

  /** While t waits with a positive counter no recharge happens, and ticks are paid
      for out of the other tasks' counters. */
  lemma WaitStep(s: Sched, t: int, e: Event)
    requires Inv(s) && 0 < t < NR_TASKS && Runnable(s.task[t]) && s.current != t && s.task[t].counter > 0 && !e.Fork?
    requires Runnable(Step(s, e).task[t])
    ensures Step(s, e).task[t].counter == s.task[t].counter
    ensures Inv(Step(s, e)) && Potential(Step(s, e)) + (if e == Tick(true) then 1 else 0) <= Potential(s)
  {
    StepKeeps(s, e);
    match e
    case Tick(user) =>
      SumUpdate(s.task, s.current, Charged(s).task[s.current]);
      if user && Charged(s).task[s.current].counter == 0 {
        WaitSchedule(Charged(s), t);
      }
    case Yield => WaitSchedule(s, t);
    case SetState(i, st) => if Enabled(s, e) { SumUpdate(s.task, i, s.task[i].(state := st)); }
    case Signal(i, sig, blk) => if Enabled(s, e) { SumUpdate(s.task, i, s.task[i].(signal := sig, blocked := blk)); }
    case Alarm(i, a) => if Enabled(s, e) { SumUpdate(s.task, i, s.task[i].(alarm := a)); }
    case Nice(n) => SumUpdate(s.task, s.current, Niced(s.task[s.current], n));
    case Release(i) => if Enabled(s, e) { SumUpdate(s.task, i, s.task[i].(present := false)); }
  }

  lemma WaitSchedule(s: Sched, t: int)
    requires Inv(s) && 0 < t < NR_TASKS && Runnable(s.task[t]) && s.task[t].counter > 0
    ensures var r := Scheduled(s); r.task == ProddedAll(s.task, s.jiffies) && r.current != 0
    ensures var r := Scheduled(s);
      Inv(r) && r.task[r.current].counter > 0 && Sum(r.task) <= Sum(s.task) && r.task[t].counter == s.task[t].counter
  {
    var task := ProddedAll(s.task, s.jiffies);
    ScheduledKeeps(s);
    assert forall k :: 0 <= k < NR_TASKS ==> Share(task[k]) == Share(s.task[k]);
    SumSame(task, s.task);
    ScanBest(task, 1);
    assert Runnable(task[t]);
  }

  /** A continuously runnable task with a positive counter runs after at most that
      many user-mode ticks, whatever the other tasks do. */
  lemma {:induction false} BoundedWait(s: Sched, t: int, events: seq<Event>)
    requires Inv(s) && 0 < t < NR_TASKS && s.task[t].counter > 0 && Waiting(s, t, events)
    ensures UserTicks(events) <= Potential(s)
    decreases |events|
  {
    if events == [] {
      SumNonNegative(s.task);
    } else {
      var e := events[0];
      StepKeeps(s, e);
      WaitStep(s, t, e);
      BoundedWait(Step(s, e), t, events[1..]);
    }
  }

  lemma {:induction false} SumNonNegative(task: seq<Task>)
    requires forall k :: 0 <= k < |task| ==> Share(task[k]) >= 0
    ensures Sum(task) >= 0
    decreases |task|
  {
    if task != [] {
      assert Share(task[|task| - 1]) >= 0;
      SumNonNegative(task[..|task| - 1]);
    }
  }

  function AtPeak(task: seq<Task>): seq<Task> {
    seq(|task|, i requires 0 <= i < |task| => task[i].(counter := 2 * task[i].peak))
  }

  /** A bound on Potential that only the priorities can raise. */
  function Cap(s: Sched): int {
    2 * Sum(AtPeak(s.task)) + 1
  }

  lemma UnderCap(s: Sched)
    requires Inv(s)
    ensures Potential(s) <= Cap(s)
  {
    assert forall i :: 0 <= i < NR_TASKS ==> Sound(s.task[i]) && Share(s.task[i]) <= Share(AtPeak(s.task)[i]);
    SumSame(s.task, AtPeak(s.task));
  }

  lemma PeakStep(s: Sched, e: Event, i: int)
    requires Inv(s) && !e.Fork? && !e.Nice? && 0 <= i < NR_TASKS
    ensures |Step(s, e).task| == NR_TASKS
    ensures Step(s, e).task[i].peak == s.task[i].peak && (Step(s, e).task[i].present ==> s.task[i].present)
  {
    hide Scan;
  }

  lemma CapStep(s: Sched, e: Event)
    requires Inv(s) && !e.Fork? && !e.Nice?
    ensures Cap(Step(s, e)) <= Cap(s)
  {
    StepKeeps(s, e);
    var r := Step(s, e);
    forall i | 0 <= i < NR_TASKS
      ensures Share(AtPeak(r.task)[i]) <= Share(AtPeak(s.task)[i])
    {
      PeakStep(s, e, i);
      assert Sound(s.task[i]);
    }
    SumSame(AtPeak(r.task), AtPeak(s.task));
  }

  /** With nothing left to spend, t either sees another step paid for by others or
      is recharged. */
  lemma EmptyWaitStep(s: Sched, t: int, e: Event)
    requires Inv(s) && 0 < t < NR_TASKS && Runnable(s.task[t]) && s.current != t && s.task[t].counter == 0 && !e.Fork?
    requires Runnable(Step(s, e).task[t])
    ensures var r := Step(s, e); var used := if e == Tick(true) then 1 else 0;
      Inv(r) && (r.task[t].counter > 0 || (r.task[t].counter == 0 && Potential(r) + used <= Potential(s)))
  {
    StepKeeps(s, e);
    match e
    case Tick(user) =>
      SumUpdate(s.task, s.current, Charged(s).task[s.current]);
      if user && Charged(s).task[s.current].counter == 0 {
        EmptySchedule(Charged(s), t);
      }
    case Yield => EmptySchedule(s, t);
    case SetState(i, st) => if Enabled(s, e) { SumUpdate(s.task, i, s.task[i].(state := st)); }
    case Signal(i, sig, blk) => if Enabled(s, e) { SumUpdate(s.task, i, s.task[i].(signal := sig, blocked := blk)); }
    case Alarm(i, a) => if Enabled(s, e) { SumUpdate(s.task, i, s.task[i].(alarm := a)); }
    case Nice(n) => SumUpdate(s.task, s.current, Niced(s.task[s.current], n));
    case Release(i) => if Enabled(s, e) { SumUpdate(s.task, i, s.task[i].(present := false)); }
  }

  lemma EmptySchedule(s: Sched, t: int)
    requires Inv(s) && 0 < t < NR_TASKS && Runnable(s.task[t]) && s.task[t].counter == 0
    ensures var r := Scheduled(s);
      && Inv(r)
      && (r.task[t].counter > 0
          || (r.task[t].counter == 0 && Sum(r.task) <= Sum(s.task) && r.task[r.current].counter > 0))
  {
    var task := ProddedAll(s.task, s.jiffies);
    ScheduledKeeps(s);
    assert forall k :: 0 <= k < NR_TASKS ==> Share(task[k]) == Share(s.task[k]);
    SumSame(task, s.task);
    ScanBest(task, 1);
    assert Runnable(task[t]) && Sound(task[t]);
  }

  /** Nobody starves: with the priorities left alone, a continuously runnable task gets
      the processor after at most that many user-mode ticks, recharge included. */
  lemma {:induction false} NoStarvation(s: Sched, t: int, events: seq<Event>)
    requires Inv(s) && 0 < t < NR_TASKS && Waiting(s, t, events)
    requires forall k :: 0 <= k < |events| ==> !events[k].Nice?
    ensures UserTicks(events) <= Potential(s) + 1 + Cap(s)
    decreases |events|
  {
    UnderCap(s);
    SumNonNegative(s.task) by { assert forall k :: 0 <= k < NR_TASKS ==> Sound(s.task[k]); }
    if s.task[t].counter > 0 {
      BoundedWait(s, t, events);
    } else if events != [] {
      assert Sound(s.task[t]);
      var e := events[0];
      var r := Step(s, e);
      StepKeeps(s, e);
      EmptyWaitStep(s, t, e);
      CapStep(s, e);
      UnderCap(r);
      if r.task[t].counter > 0 {
        BoundedWait(r, t, events[1..]);
      } else {
        NoStarvation(r, t, events[1..]);
      }
    }
  }
}
