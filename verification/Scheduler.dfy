/** kernel/sched.c over the real task table: schedule(), do_timer's accounting,
    sys_nice, and the fields fork sets. */
module Scheduler {
  import opened SchedulerModel

  class Kernel {
    const task: array<Task>
    var current: int
    var jiffies: int

    ghost function S(): Sched
      reads this, task
    {
      Sched(task[..], current, jiffies)
    }

    ghost predicate Valid()
      reads this, task
    {
      Inv(S())
    }

    /** The idle task alone. */
    constructor (priority: int)
      requires priority >= 1
      ensures Valid() && fresh(task)
    {
      task := new Task[NR_TASKS](i =>
        Task(i == 0, Running, if i == 0 then priority else 0, priority, priority, 0, {}, {}));
      current, jiffies := 0, 0;
    }

    method ProdAll()
      requires task.Length == NR_TASKS
      modifies task
      ensures task[..] == ProddedAll(old(task[..]), jiffies)
    {
      var i := NR_TASKS - 1;
      while i > 0
        invariant 0 <= i < NR_TASKS
        invariant forall k :: i < k < NR_TASKS ==> task[k] == Prodded(old(task[k]), jiffies)
        invariant forall k :: 0 <= k <= i ==> task[k] == old(task[k])
      {
        var t := task[i];
        if t.present {
          if t.alarm != 0 && t.alarm < jiffies {
            t := t.(signal := t.signal + {SIGALRM}, alarm := 0);
          }
          if t.signal - (t.blocked - {SIGKILL, SIGSTOP}) != {} && t.state == Interruptible {
            t := t.(state := Running);
          }
          task[i] := t;
        }
        i := i - 1;
      }
    }

    method Search() returns (c: int, next: int)
      requires task.Length == NR_TASKS
      ensures Pick(c, next) == Scan(task[..], 1)
    {
      c, next := -1, 0;
      var i := NR_TASKS - 1;
      while i > 0
        invariant 0 <= i < NR_TASKS
        invariant Pick(c, next) == Scan(task[..], i + 1)
      {
        if task[i].present && task[i].state == Running && task[i].counter > c {
          c, next := task[i].counter, i;
        }
        i := i - 1;
      }
    }

    method RechargeAll()
      requires task.Length == NR_TASKS
      modifies task
      ensures task[..] == RechargedAll(old(task[..]))
    {
      var i := NR_TASKS - 1;
      while i > 0
        invariant 0 <= i < NR_TASKS
        invariant forall k :: i < k < NR_TASKS ==> task[k] == Recharged(old(task[k]))
        invariant forall k :: 0 <= k <= i ==> task[k] == old(task[k])
      {
        if task[i].present {
          task[i] := task[i].(counter := task[i].counter / 2 + task[i].priority);
        }
        i := i - 1;
      }
    }

    /** The endless loop ends in its second round at the latest. */
    method Schedule() returns (rounds: nat)
      requires Valid()
      modifies this`current, task
      ensures Valid() && S() == Scheduled(old(S())) && 1 <= rounds <= 2
      ensures rounds == 1
        <==> task[..] == ProddedAll(old(task[..]), jiffies)
             && (current != 0 || forall k :: 0 < k < NR_TASKS ==> !Runnable(task[k]))
    {
      ghost var s := S();
      ScheduledKeeps(s);
      ProdAll();
      ghost var prodded := task[..];
      assert forall k :: 0 <= k < NR_TASKS ==> Sound(prodded[k]);
      ScanBest(prodded, 1);
      rounds := 1;
      var c, next := Search();
      while c == 0
        invariant 1 <= rounds <= 2 && Pick(c, next) == Scan(task[..], 1)
        invariant rounds == 1 ==> task[..] == prodded
        invariant rounds == 2 ==> c > 0 && Scan(prodded, 1).c == 0 && 0 < next < NR_TASKS
        invariant rounds == 2 ==> task[..] == RechargedAll(prodded)
        decreases 2 - rounds
      {
        RechargeSuffices(prodded);
        RechargeAll();
        c, next := Search();
        ScanBest(task[..], 1);
        rounds := rounds + 1;
      }
      if rounds == 2 {
        var n := Scan(prodded, 1).next;
        assert task[n].counter >= 1 && prodded[n].counter == 0;
      }
      current := next;
    }

    /** One clock tick; `user` is cpl != 0. */
    method DoTimer(user: bool)
      requires Valid()
      modifies this, task
      ensures Valid() && S() == Ticked(old(S()), user)
    {
      assert Inv(Charged(S()));
      jiffies := jiffies + 1;
      var t := task[current];
      t := t.(counter := t.counter - 1);
      task[current] := t;
      if t.counter > 0 {
        assert S() == Charged(old(S()));
        return;
      }
      task[current] := t.(counter := 0);
      assert S() == Charged(old(S()));
      if !user {
        return;
      }
      var _ := Schedule();
    }

    /** The increment is refused when it would take the priority to 0 or below. */
    method SysNice(increment: int)
      requires Valid()
      modifies task
      ensures Valid() && S() == Step(old(S()), Nice(increment))
    {
      if task[current].priority - increment > 0 {
        var p := task[current].priority - increment;
        var peak := if p > task[current].peak then p else task[current].peak;
        task[current] := task[current].(priority := p, peak := peak);
      }
      assert S() == Step(old(S()), Nice(increment));
    }

    method Perform(e: Event)
      requires Valid()
      modifies this, task
      ensures Valid() && S() == Step(old(S()), e)
    {
      StepKeeps(S(), e);
      match e
      case Tick(user) => DoTimer(user);
      case Yield => var _ := Schedule();
      case Nice(n) => SysNice(n);
      case SetState(i, st) => if 0 < i < task.Length && task[i].present { task[i] := task[i].(state := st); }
      case Signal(i, sig, blk) =>
        if 0 < i < task.Length && task[i].present { task[i] := task[i].(signal := sig, blocked := blk); }
      case Alarm(i, a) => if 0 < i < task.Length && task[i].present { task[i] := task[i].(alarm := a); }
      case Fork(i) => if 0 < i < task.Length && !task[i].present { task[i] := Child(task[current]); }
      case Release(i) =>
        if 0 < i < task.Length && task[i].present && i != current { task[i] := task[i].(present := false); }
    }

    /** Over any run the counters keep below twice the largest priority, and the loop
        above always ends. */
    method Run(events: seq<Event>)
      requires Valid()
      modifies this, task
      ensures Valid() && S() == Steps(old(S()), events)
    {
      ghost var s := S();
      for k := 0 to |events|
        invariant Valid() && S() == Steps(s, events[..k])
      {
        assert events[..k + 1][..k] == events[..k];
        Perform(events[k]);
      }
      assert events[..|events|] == events;
    }
  }

  ghost function Steps(s: Sched, events: seq<Event>): (r: Sched)
    requires Inv(s)
    ensures Inv(r)
  {
    if events == [] then s
    else
      var m := Steps(s, events[..|events| - 1]);
      StepKeeps(m, events[|events| - 1]);
      Step(m, events[|events| - 1])
  }
}
