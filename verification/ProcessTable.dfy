/** Pids and parents: find_empty_process and copy_process in kernel/fork.c, do_exit,
    tell_father, release and sys_waitpid in kernel/exit.c. */
module ProcessTable {
  import opened Counting

  const NR_TASKS: int := 64
  const LONG_MAX: int := 0x7fff_ffff
  const EAGAIN: int := 11

  datatype State = Running | Interruptible | Uninterruptible | Zombie | Stopped

  /** `chld`: SIGCHLD is pending. */
  datatype Slot = Free | Task(pid: int, father: int, pgrp: int, state: State, code: int, chld: bool)

  predicate Is(t: seq<Slot>, i: int, pid: int) {
    0 <= i < |t| && t[i].Task? && t[i].pid == pid
  }

  predicate Lives(t: seq<Slot>, i: int) {
    0 <= i < |t| && t[i].Task? && t[i].state != Zombie
  }

  ghost predicate HasLiving(t: seq<Slot>, pid: int) {
    exists i :: Is(t, i, pid) && Lives(t, i)
  }

  predicate Clash(t: seq<Slot>, i: int, j: int) {
    0 <= i < j < |t| && t[i].Task? && t[j].Task? && t[i].pid == t[j].pid
  }

  /** Pids differ, idle and init live, everybody's father is a living task, and idle is
      nobody's father but init's: it forks once, before there are others. */
  ghost predicate Inv(t: seq<Slot>) {
    && |t| == NR_TASKS
    && Lives(t, 0) && t[0].pid == 0 && Lives(t, 1) && t[1].pid == 1
    && (forall i, j :: !Clash(t, i, j))
    && (forall i :: 0 <= i < |t| && t[i].Task? ==> 0 <= t[i].pid <= LONG_MAX)
    && (forall i :: 1 <= i < |t| && t[i].Task? ==> HasLiving(t, t[i].father))
    && (forall i :: 2 <= i < |t| && t[i].Task? ==> t[i].father != 0)
  }

  /** The kth pid tried after p: long overflow goes negative and is replaced by 1. */
  function Nth(p: int, k: nat): int {
    if p + k <= LONG_MAX then p + k else p + k - LONG_MAX
  }

  ghost predicate InUse(t: seq<Slot>, pid: int) {
    exists k :: Is(t, k, pid)
  }

  /** The slots found in the way of the first n pids after p, one for each. */
  ghost predicate Hits(t: seq<Slot>, p: int, n: nat, hits: set<int>) {
    && |hits| == n
    && (forall k :: k in hits ==> 0 <= k < |t| && t[k].Task? && exists j: nat :: 1 <= j <= n && Nth(p, j) == t[k].pid)
    && (forall j: nat :: 1 <= j <= n ==> InUse(t, Nth(p, j)))
  }

  lemma NoHits(t: seq<Slot>, p: int)
    ensures Hits(t, p, 0, {})
  {
  }

  lemma HitsInUse(t: seq<Slot>, p: int, n: nat, hits: set<int>)
    requires Hits(t, p, n, hits)
    ensures forall j: nat :: 1 <= j <= n ==> InUse(t, Nth(p, j))
  {
  }

  /** The pids tried differ, so each is in the way in another slot. */
  lemma HitMore(t: seq<Slot>, p: int, n: nat, hits: set<int>, k: int)
    requires |t| == NR_TASKS && 0 <= p <= LONG_MAX && 1 <= n <= NR_TASKS + 1
    requires Hits(t, p, n - 1, hits) && Is(t, k, Nth(p, n))
    ensures n <= NR_TASKS && Hits(t, p, n, hits + {k})
  {
    forall i | i in hits
      ensures i != k
    {
      var j: nat :| 1 <= j <= n - 1 && Nth(p, j) == t[i].pid;
      assert Nth(p, j) != Nth(p, n);
    }
    BoundedSet(hits + {k}, 0, NR_TASKS);
    forall i | i in hits + {k}
      ensures 0 <= i < |t| && t[i].Task? && exists j: nat :: 1 <= j <= n && Nth(p, j) == t[i].pid
    {
    }
    assert InUse(t, Nth(p, n));
  }

  /** Which of the caller's children sys_waitpid is asked about. */
  predicate Asked(t: seq<Slot>, cur: int, pid: int, i: int)
    requires 0 <= cur < |t| && t[cur].Task?
  {
    && 1 <= i < |t| && i != cur && t[i].Task? && t[i].father == t[cur].pid
    && (if pid > 0 then t[i].pid == pid else if pid == 0 then t[i].pgrp == t[cur].pgrp
      else pid == -1 || t[i].pgrp == -pid)
  }

  predicate Reports(t: seq<Slot>, cur: int, pid: int, untraced: bool, i: int)
    requires 0 <= cur < |t| && t[cur].Task?
  {
    Asked(t, cur, pid, i) && (t[i].state == Zombie || (t[i].state == Stopped && untraced))
  }

  predicate Pending(t: seq<Slot>, cur: int, pid: int, i: int)
    requires 0 <= cur < |t| && t[cur].Task?
  {
    Asked(t, cur, pid, i) && t[i].state != Zombie && t[i].state != Stopped
  }

  datatype Wait = Reaped(pid: int, code: int) | IsStopped(pid: int) | NothingYet | MustSleep | Interrupted | NoChild

  // ---- what the steps keep ----

  function Born(t: seq<Slot>, cur: int, i: int, pid: int): seq<Slot>
    requires 0 <= cur < |t| && t[cur].Task? && 0 <= i < |t|
  {
    t[i := Task(pid, t[cur].pid, t[cur].pgrp, Running, t[cur].code, false)]
  }

  lemma BornKeeps(t: seq<Slot>, cur: int, i: int, pid: int)
    requires Inv(t) && 1 <= cur && Lives(t, cur) && 2 <= i < NR_TASKS && t[i].Free? && 0 <= pid <= LONG_MAX
    requires !InUse(t, pid)
    ensures Inv(Born(t, cur, i, pid))
  {
    var r := Born(t, cur, i, pid);
    forall a, b
      ensures !Clash(r, a, b)
    {
      assert !Clash(t, a, b) && !Is(t, a, pid) && !Is(t, b, pid);
    }
    assert Is(r, cur, t[cur].pid) && Lives(r, cur);
    assert !Clash(t, 0, cur);
    LivingKept(t, r);
  }

  /** Whoever lived before lives still. */
  lemma LivingKept(t: seq<Slot>, r: seq<Slot>)
    requires |r| == |t| && (forall k :: Lives(t, k) ==> Lives(r, k) && r[k].pid == t[k].pid)
    ensures forall pid :: HasLiving(t, pid) ==> HasLiving(r, pid)
  {
    forall pid | HasLiving(t, pid)
      ensures HasLiving(r, pid)
    {
      var k :| Is(t, k, pid) && Lives(t, k);
      assert Is(r, k, pid) && Lives(r, k);
    }
  }

  /** do_exit on the table: the children go to init, the task becomes a zombie, its
      father gets SIGCHLD, and so does init for every zombie it inherits. */
  function Adopted(t: seq<Slot>, gone: int): seq<Slot> {
    seq(|t|, i requires 0 <= i < |t| => if t[i].Task? && t[i].father == gone then t[i].(father := 1) else t[i])
  }

  predicate Inherits(t: seq<Slot>, gone: int, i: int) {
    0 <= i < |t| && t[i].Task? && t[i].father == gone && t[i].state == Zombie
  }

  predicate Exited(t: seq<Slot>, cur: int, r: seq<Slot>, i: int)
    requires 0 <= cur < |t| == |r| && t[cur].Task? && 0 <= i < |t|
  {
    if t[i].Free? then r[i].Free?
    else
      && r[i].Task? && r[i].pid == t[i].pid && r[i].pgrp == t[i].pgrp
      && r[i].father == (if t[i].father == t[cur].pid then 1 else t[i].father)
      && r[i].state == (if i == cur then Zombie else t[i].state)
  }

  lemma ExitKeeps(t: seq<Slot>, cur: int, r: seq<Slot>)
    requires Inv(t) && 2 <= cur < NR_TASKS && Lives(t, cur) && |r| == |t|
    requires forall i :: 0 <= i < |t| ==> Exited(t, cur, r, i)
    ensures Inv(r)
  {
    assert Exited(t, cur, r, 0) && Exited(t, cur, r, 1);
    forall a, b
      ensures !Clash(r, a, b)
    {
      assert !Clash(t, a, b);
      assert 0 <= a < |t| ==> Exited(t, cur, r, a);
      assert 0 <= b < |t| ==> Exited(t, cur, r, b);
    }
    forall i | 0 <= i < |r| && r[i].Task?
      ensures 0 <= r[i].pid <= LONG_MAX && (i >= 2 ==> r[i].father != 0)
    {
      assert Exited(t, cur, r, i);
    }
    assert Is(r, 1, 1) && Lives(r, 1);
    forall i | 1 <= i < |r| && r[i].Task?
      ensures HasLiving(r, r[i].father)
    {
      assert Exited(t, cur, r, i);
      if t[i].father != t[cur].pid {
        var k :| Is(t, k, t[i].father) && Lives(t, k);
        assert Exited(t, cur, r, k);
        assert Is(r, k, t[i].father) && Lives(r, k);
      }
    }
  }

  /** The tasks with that pid, and no others, have SIGCHLD pending. */
  ghost predicate Told(m: seq<Slot>, r: seq<Slot>, pid: int) {
    |r| == |m| && forall i :: 0 <= i < |m| ==> r[i] == if Is(m, i, pid) then m[i].(chld := true) else m[i]
  }

  lemma ToldKeeps(t: seq<Slot>, cur: int, m: seq<Slot>, r: seq<Slot>, pid: int)
    requires 0 <= cur < |t| == |m| && 1 < |t| && t[cur].Task? && (forall i :: 0 <= i < |t| ==> Exited(t, cur, m, i))
    requires Told(m, r, pid)
    ensures forall i :: 0 <= i < |t| ==> Exited(t, cur, r, i)
    ensures m[cur].Task? && r[cur].Task? && r[cur].state == Zombie && r[cur].code == m[cur].code
      && r[cur].father == m[cur].father
    ensures forall i :: Is(r, i, pid) ==> r[i].chld
    ensures m[1].Task? && m[1].chld ==> r[1].Task? && r[1].chld
  {
    forall i | 0 <= i < |t|
      ensures Exited(t, cur, r, i)
    {
      assert Exited(t, cur, m, i);
    }
    assert Exited(t, cur, m, cur);
    forall i | Is(r, i, pid)
      ensures r[i].chld
    {
      assert Is(m, i, pid);
    }
  }

  /** tell_father finds somebody to tell: no task it is called for is idle's child. */
  lemma FatherThere(t: seq<Slot>, i: int)
    requires Inv(t) && 2 <= i < NR_TASKS && t[i].Task?
    ensures t[i].father != 0 && InUse(t, t[i].father) && (forall a, b :: !Clash(t, a, b))
  {
    assert HasLiving(t, t[i].father);
    var k :| Is(t, k, t[i].father) && Lives(t, k);
  }

  /** Nobody is the child of a zombie, so reaping it orphans nobody. */
  lemma ReapKeeps(t: seq<Slot>, i: int)
    requires Inv(t) && 0 <= i < NR_TASKS && t[i].Task? && t[i].state == Zombie
    ensures i >= 2 && Inv(t[i := Free])
    ensures forall k :: 1 <= k < NR_TASKS && t[k].Task? ==> t[k].father != t[i].pid
  {
    var r := t[i := Free];
    forall a, b
      ensures !Clash(r, a, b)
    {
      assert !Clash(t, a, b);
    }
    forall k | 1 <= k < NR_TASKS && t[k].Task?
      ensures t[k].father != t[i].pid
    {
      var p :| Is(t, p, t[k].father) && Lives(t, p);
      assert !Clash(t, p, i) && !Clash(t, i, p);
    }
    LivingKept(t, r);
  }

  class Table {
    const task: array<Slot>
    var lastPid: int

    ghost predicate Valid()
      reads this, task
    {
      Inv(task[..]) && 0 <= lastPid <= LONG_MAX
    }

    /** Idle and init. */
    constructor ()
      ensures Valid() && fresh(task)
    {
      task := new Slot[NR_TASKS](i => if i < 2 then Task(i, 0, 0, Running, 0, false) else Free);
      lastPid := 1;
      new;
      assert Is(task[..], 0, 0) && Lives(task[..], 0);
    }

    /** The first loop of find_empty_process. It ends because at most NR_TASKS pids
        are taken, and it passes over none that is not. */
    method NextPid() returns (tries: nat)
      requires task.Length == NR_TASKS && 0 <= lastPid <= LONG_MAX
      modifies this`lastPid
      ensures 1 <= tries <= NR_TASKS + 1 && lastPid == Nth(old(lastPid), tries) && 1 <= lastPid <= LONG_MAX
      ensures !InUse(task[..], lastPid)
      ensures forall j: nat :: 1 <= j < tries ==> InUse(task[..], Nth(old(lastPid), j))
    {
      hide InUse, Hits;
      ghost var start, t := lastPid, task[..];
      ghost var hits: set<int> := {};
      NoHits(t, start);
      tries := 0;
      var taken := true;
      while taken
        invariant 0 <= lastPid <= LONG_MAX && lastPid == Nth(start, tries) && (tries > 0 ==> lastPid >= 1)
        invariant taken ==> tries <= NR_TASKS && Hits(t, start, tries, hits)
        invariant !taken ==> 1 <= tries <= NR_TASKS + 1 && Hits(t, start, tries - 1, hits) && !InUse(t, lastPid)
        decreases NR_TASKS + 1 - tries, taken
      {
        lastPid := if lastPid == LONG_MAX then 1 else lastPid + 1;
        tries := tries + 1;
        var k := PidInUse();
        taken := k < NR_TASKS;
        if taken {
          HitMore(t, start, tries, hits, k);
          hits := hits + {k};
        }
      }
      HitsInUse(t, start, tries - 1, hits);
    }

    method FindEmptyProcess() returns (i: int)
      requires Valid()
      modifies this`lastPid
      ensures Valid() && lastPid >= 1 && !InUse(task[..], lastPid)
      ensures i == -EAGAIN ==> forall k :: 1 <= k < NR_TASKS ==> task[k].Task?
      ensures i != -EAGAIN ==> 2 <= i < NR_TASKS && task[i].Free? && forall k :: 1 <= k < i ==> task[k].Task?
    {
      var _ := NextPid();
      i := 1;
      while i < NR_TASKS
        invariant 1 <= i <= NR_TASKS && forall k :: 1 <= k < i ==> task[k].Task?
      {
        if task[i].Free? {
          return;
        }
        i := i + 1;
      }
      return -EAGAIN;
    }

    method PidInUse() returns (i: int)
      requires task.Length == NR_TASKS
      ensures 0 <= i <= NR_TASKS && (i < NR_TASKS ==> Is(task[..], i, lastPid))
      ensures i == NR_TASKS ==> !InUse(task[..], lastPid)
    {
      i := 0;
      while i < NR_TASKS
        invariant 0 <= i <= NR_TASKS && forall k :: 0 <= k < i ==> !Is(task[..], k, lastPid)
      {
        if task[i].Task? && task[i].pid == lastPid {
          return;
        }
        i := i + 1;
      }
    }

    /** sys_fork: `room` is whether copy_process gets its pages. Idle has forked already. */
    method Fork(cur: int, room: bool) returns (r: int)
      requires Valid() && 1 <= cur && Lives(task[..], cur)
      modifies this`lastPid, task
      ensures Valid() && Forked(old(task[..]), cur, room, r, task[..])
      ensures r != -EAGAIN ==> r == lastPid
    {
      var i := FindEmptyProcess();
      if i < 0 || !room {
        return -EAGAIN;
      }
      BornKeeps(task[..], cur, i, lastPid);
      ghost var t := task[..];
      task[i] := Task(lastPid, task[cur].pid, task[cur].pgrp, Running, task[cur].code, false);
      assert task[..] == Born(t, cur, i, lastPid);
      assert FirstFree(t, i);
      return lastPid;
    }

    // ---- exit ----

    /** The loop that hands the children to init. */
    method GiveAway(cur: int)
      requires Valid() && 2 <= cur < NR_TASKS && task[cur].Task?
      modifies task
      ensures forall i :: 0 <= i < NR_TASKS ==> task[i] == (var a := Adopted(old(task[..]), old(task[cur]).pid)[i];
                if i == 1 && (exists k :: Inherits(old(task[..]), old(task[cur]).pid, k)) then a.(chld := true) else a)
    {
      ghost var t := task[..];
      var pid := task[cur].pid;
      ghost var told := false;
      assert !Clash(t, 1, cur);
      for i := 0 to NR_TASKS
        invariant told <==> exists k :: k < i && Inherits(t, pid, k)
        invariant forall k :: 0 <= k < NR_TASKS ==> task[k] == (var a := if k < i then Adopted(t, pid)[k] else t[k];
          if k == 1 && told then a.(chld := true) else a)
      {
        if task[i].Task? && task[i].father == pid {
          task[i] := task[i].(father := 1);
          if task[i].state == Zombie {
            assert Inherits(t, pid, i);
            task[1] := task[1].(chld := true);
            told := true;
          }
        }
      }
    }

    /** tell_father. When nobody has the pid, or it is 0, the caller releases itself. */
    method TellFather(cur: int, pid: int)
      requires task.Length == NR_TASKS && 0 <= cur < NR_TASKS && (forall i, j :: !Clash(task[..], i, j))
      modifies task
      ensures pid != 0 && InUse(old(task[..]), pid) ==> Told(old(task[..]), task[..], pid)
      ensures pid == 0 || !InUse(old(task[..]), pid) ==> task[..] == old(task[..])[cur := Free]
    {
      ghost var t := task[..];
      if pid != 0 {
        var i := 0;
        while i < NR_TASKS
          invariant 0 <= i <= NR_TASKS && task[..] == t && forall k :: 0 <= k < i ==> !Is(t, k, pid)
        {
          if task[i].Task? && task[i].pid == pid {
            assert Is(t, i, pid);
            task[i] := task[i].(chld := true);
            forall k | Is(t, k, pid)
              ensures k == i
            {
              assert !Clash(t, i, k) && !Clash(t, k, i);
            }
            return;
          }
          i := i + 1;
        }
      }
      task[cur] := Free;
    }

    /** do_exit of any task but idle and init. */
    method DoExit(cur: int, code: int)
      requires Valid() && 2 <= cur < NR_TASKS && Lives(task[..], cur)
      modifies task
      ensures Valid() && Gone(old(task[..]), cur, code, task[..])
    {
      ghost var t := task[..];
      Bury(cur, code);
      ghost var m := task[..];
      ExitKeeps(t, cur, m);
      FatherThere(m, cur);
      hide Inv, Inherits, Exited, InUse;
      TellFather(cur, task[cur].father);
      ToldKeeps(t, cur, m, task[..], m[cur].father);
      ExitKeeps(t, cur, task[..]);
    }

    /** The children given away, the task itself turned into a zombie. */
    method Bury(cur: int, code: int)
      requires Valid() && 2 <= cur < NR_TASKS && Lives(task[..], cur)
      modifies task
      ensures forall i :: 0 <= i < NR_TASKS ==> Exited(old(task[..]), cur, task[..], i)
      ensures task[cur].Task? && task[cur].code == code
      ensures (exists k :: Inherits(old(task[..]), old(task[cur]).pid, k)) ==> task[1].Task? && task[1].chld
    {
      ghost var t := task[..];
      GiveAway(cur);
      hide Inv, Inherits;
      task[cur] := task[cur].(state := Zombie, code := code);
      forall i | 0 <= i < NR_TASKS
        ensures Exited(t, cur, task[..], i)
      {
      }
    }

    // ---- wait ----

    method Release(i: int)
      requires Valid() && 0 <= i < NR_TASKS && task[i].Task? && task[i].state == Zombie
      modifies task
      ensures Valid() && task[..] == old(task[..])[i := Free]
    {
      ReapKeeps(task[..], i);
      task[i] := Free;
    }

    /** One pass of sys_waitpid, from the last slot down, up to its sleep. */
    method WaitPid(cur: int, pid: int, noHang: bool, untraced: bool) returns (r: Wait)
      requires Valid() && Lives(task[..], cur)
      modifies task
      ensures Valid() && Waited(old(task[..]), cur, pid, noHang, untraced, r, task[..])
    {
      ghost var t := task[..];
      var flag := false;
      var i := NR_TASKS - 1;
      while i > 0
        invariant 0 <= i < NR_TASKS && task[..] == t
        invariant forall k :: i < k < NR_TASKS ==> !Reports(t, cur, pid, untraced, k)
        invariant flag <==> exists k :: i < k && Pending(t, cur, pid, k)
      {
        var s := task[i];
        if s.Task? && i != cur && s.father == task[cur].pid
          && (if pid > 0 then s.pid == pid
              else if pid == 0 then s.pgrp == task[cur].pgrp
              else pid == -1 || s.pgrp == -pid) {
          assert Asked(t, cur, pid, i);
          if s.state == Stopped {
            if untraced {
              assert Reported(t, cur, pid, untraced, i, IsStopped(s.pid), task[..]);
              return IsStopped(s.pid);
            }
          } else if s.state == Zombie {
            Release(i);
            assert Reported(t, cur, pid, untraced, i, Reaped(s.pid, s.code), task[..]);
            return Reaped(s.pid, s.code);
          } else {
            assert Pending(t, cur, pid, i);
            flag := true;
          }
        }
        i := i - 1;
      }
      if flag && !noHang {
        task[cur] := task[cur].(state := Interruptible);
        SameFamily(t, task[..]);
        return MustSleep;
      }
      return if flag then NothingYet else NoChild;
    }

    /** After the sleep: SIGCHLD is cleared, any other signal ends the call, otherwise
        it looks again. */
    method WaitAgain(cur: int, pid: int, noHang: bool, untraced: bool, signalled: bool) returns (r: Wait)
      requires Valid() && Lives(task[..], cur)
      modifies task
      ensures Valid() && WokeUp(old(task[..]), cur, pid, noHang, untraced, signalled, r, task[..])
    {
      ghost var t := task[..];
      task[cur] := task[cur].(chld := false);
      SameFamily(t, task[..]);
      if signalled {
        return Interrupted;
      }
      r := WaitPid(cur, pid, noHang, untraced);
    }
  }

  // ---- what the calls answer ----

  ghost predicate FirstFree(t: seq<Slot>, i: int) {
    2 <= i < |t| && t[i].Free? && forall k :: 1 <= k < i ==> t[k].Task?
  }

  ghost predicate NoSlot(t: seq<Slot>) {
    forall k :: 1 <= k < |t| ==> t[k].Task?
  }

  /** EAGAIN exactly for want of a slot or of memory; otherwise a child in the first
      free slot with a pid nobody has. */
  ghost predicate Forked(t: seq<Slot>, cur: int, room: bool, r: int, t': seq<Slot>)
    requires 0 <= cur < |t| && t[cur].Task?
  {
    if !room || NoSlot(t) then r == -EAGAIN && t' == t
    else r >= 1 && !InUse(t, r) && exists i :: FirstFree(t, i) && t' == Born(t, cur, i, r)
  }

  /** do_exit: a zombie with its code, its father told, and init if it inherits one. */
  ghost predicate Gone(t: seq<Slot>, cur: int, code: int, t': seq<Slot>)
    requires 1 < |t| && 0 <= cur < |t| && t[cur].Task?
  {
    && |t'| == |t| && (forall i :: 0 <= i < |t| ==> Exited(t, cur, t', i))
    && t'[cur].Task? && t'[cur].code == code
    && (forall i :: Is(t', i, t'[cur].father) ==> t'[i].chld)
    && ((exists k :: Inherits(t, t[cur].pid, k)) ==> t'[1].Task? && t'[1].chld)
  }

  ghost predicate Waited(t: seq<Slot>, cur: int, pid: int, noHang: bool, untraced: bool, r: Wait, t': seq<Slot>)
    requires 0 <= cur < |t| && t[cur].Task?
  {
    if r.Reaped? || r.IsStopped? then exists i :: Reported(t, cur, pid, untraced, i, r, t')
    else
      && (forall i :: !Reports(t, cur, pid, untraced, i))
      && (r == NoChild <==> forall i :: !Pending(t, cur, pid, i))
      && (r != NoChild ==> r == if noHang then NothingYet else MustSleep)
      && t' == if r == MustSleep then t[cur := t[cur].(state := Interruptible)] else t
  }

  ghost predicate WokeUp(t: seq<Slot>, cur: int, pid: int, noHang: bool, untraced: bool, signalled: bool,
                         r: Wait, t': seq<Slot>)
    requires 0 <= cur < |t| && t[cur].Task?
  {
    var m := t[cur := t[cur].(chld := false)];
    if signalled then r == Interrupted && t' == m else Waited(m, cur, pid, noHang, untraced, r, t')
  }

  /** Child i is the last one with something to report, and that is what is reported. */
  ghost predicate Reported(t: seq<Slot>, cur: int, pid: int, untraced: bool, i: int, w: Wait, r: seq<Slot>)
    requires 0 <= cur < |t| && t[cur].Task?
  {
    && Reports(t, cur, pid, untraced, i) && (forall k :: i < k < |t| ==> !Reports(t, cur, pid, untraced, k))
    && (if t[i].state == Zombie then w == Reaped(t[i].pid, t[i].code) && r == t[i := Free]
      else w == IsStopped(t[i].pid) && r == t)
  }

  // ---- whole runs ----

  datatype Call =
    | SysFork(cur: int, room: bool)
    | SysExit(cur: int, code: int)
    | SysWait(cur: int, pid: int, noHang: bool, untraced: bool)
    | WaitOn(cur: int, pid: int, noHang: bool, untraced: bool, signalled: bool)
    | SetState(i: int, state: State)
    | SetGroup(i: int, pgrp: int)

  datatype Answer = Ignored | Done | Pid(pid: int) | Waits(wait: Wait)

  /** Idle makes none of these calls, and init does not exit. */
  predicate Enabled(t: seq<Slot>, c: Call) {
    match c
    case SysFork(cur, _) => 1 <= cur && Lives(t, cur)
    case SysExit(cur, _) => 2 <= cur && Lives(t, cur)
    case SysWait(cur, _, _, _) => Lives(t, cur)
    case WaitOn(cur, _, _, _, _) => Lives(t, cur)
    case SetState(i, state) => Lives(t, i) && state != Zombie
    case SetGroup(i, _) => Lives(t, i)
  }

  /** What a call may answer and do. */
  ghost predicate Outcome(t: seq<Slot>, c: Call, a: Answer, t': seq<Slot>) {
    |t| == NR_TASKS &&
    if !Enabled(t, c) then a == Ignored && t' == t else
    match c
    case SysFork(cur, room) => a.Pid? && Forked(t, cur, room, a.pid, t')
    case SysExit(cur, code) => a == Done && Gone(t, cur, code, t')
    case SysWait(cur, pid, noHang, untraced) => a.Waits? && Waited(t, cur, pid, noHang, untraced, a.wait, t')
    case WaitOn(cur, pid, noHang, untraced, signalled) =>
      a.Waits? && WokeUp(t, cur, pid, noHang, untraced, signalled, a.wait, t')
    case SetState(i, state) => a == Done && t' == t[i := t[i].(state := state)]
    case SetGroup(i, pgrp) => a == Done && t' == t[i := t[i].(pgrp := pgrp)]
  }

  method Perform(p: Table, c: Call) returns (a: Answer)
    requires p.Valid()
    modifies p, p.task
    ensures p.Valid() && Outcome(old(p.task[..]), c, a, p.task[..])
  {
    hide Forked, Gone, Waited;
    ghost var t := p.task[..];
    if !Enabled(p.task[..], c) {
      return Ignored;
    }
    a := Done;
    match c
    case SysFork(cur, room) =>
      var r := p.Fork(cur, room);
      a := Pid(r);
    case SysExit(cur, code) =>
      p.DoExit(cur, code);
    case SysWait(cur, pid, noHang, untraced) =>
      var w := p.WaitPid(cur, pid, noHang, untraced);
      a := Waits(w);
    case WaitOn(cur, pid, noHang, untraced, signalled) =>
      var w := p.WaitAgain(cur, pid, noHang, untraced, signalled);
      a := Waits(w);
    case SetState(i, state) =>
      p.task[i] := p.task[i].(state := state);
      SameFamily(t, p.task[..]);
    case SetGroup(i, pgrp) =>
      p.task[i] := p.task[i].(pgrp := pgrp);
      SameFamily(t, p.task[..]);
  }

  lemma SameFamily(t: seq<Slot>, r: seq<Slot>)
    requires Inv(t) && |r| == |t|
    requires forall k :: 0 <= k < |t| ==> if t[k].Free? then r[k].Free?
      else r[k].Task? && r[k].pid == t[k].pid && r[k].father == t[k].father && (Lives(t, k) <==> Lives(r, k))
    ensures Inv(r)
  {
    forall a, b
      ensures !Clash(r, a, b)
    {
      assert !Clash(t, a, b);
    }
    LivingKept(t, r);
  }

  /** Over all runs of fork, exit and wait in which idle and init stay: at most one
      task has a given pid, the father of every task is some living task, and each call
      answers as it should; `ts` holds the tables before, between and after the calls. */
  method Run(calls: seq<Call>) returns (p: Table, answers: seq<Answer>, ghost ts: seq<seq<Slot>>)
    ensures fresh(p) && p.Valid() && |answers| == |calls| && |ts| == |calls| + 1
    ensures ts[|calls|] == p.task[..] && forall k :: 0 <= k <= |calls| ==> Inv(ts[k])
    ensures forall k :: 0 <= k < |calls| ==> Outcome(ts[k], calls[k], answers[k], ts[k + 1])
    ensures forall i, j, pid :: Is(p.task[..], i, pid) && Is(p.task[..], j, pid) ==> i == j
    ensures forall i :: 1 <= i < NR_TASKS && p.task[i].Task? ==> HasLiving(p.task[..], p.task[i].father)
  {
    p := new Table();
    answers, ts := [], [p.task[..]];
    for k := 0 to |calls|
      invariant fresh(p) && fresh(p.task) && p.Valid() && |answers| == k && |ts| == k + 1
      invariant ts[k] == p.task[..] && forall j :: 0 <= j <= k ==> Inv(ts[j])
      invariant forall j :: 0 <= j < k ==> Outcome(ts[j], calls[j], answers[j], ts[j + 1])
    {
      hide Inv, Outcome;
      var a := Perform(p, calls[k]);
      answers, ts := answers + [a], ts + [p.task[..]];
    }
    forall i, j, pid | Is(p.task[..], i, pid) && Is(p.task[..], j, pid)
      ensures i == j
    {
      assert !Clash(p.task[..], i, j) && !Clash(p.task[..], j, i);
    }
  }
}
