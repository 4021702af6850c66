/** fs/open.c, fs/fcntl.c, sys_pipe in fs/pipe.c, and the descriptor loops of
    kernel/fork.c and kernel/exit.c, over the real tables. */
module Descriptors {
  import opened DescriptorModel

  const EBADF: int := 9
  const EINVAL: int := 22
  const EMFILE: int := 24

  /** One step of some task, from one sleep point to the next. */
  datatype Call =
    | OpenBegin(t: int)
    | OpenDone(t: int, d: int, p: int, mode: int)
    | OpenFail(t: int, d: int)
    | SysClose(t: int, d: int)
    | SysDup(t: int, d: int)
    | SysDup2(t: int, d: int, e: int)
    | PipeBegin(t: int)
    | PipeDone(t: int, d0: int, d1: int, p: int)
    | Fork(t: int, u: int)
    | Exit(t: int)
    | Iget(p: int)
    | IputHeld(p: int)

  /** The lowest free entry of the file table. */
  ghost predicate FirstFile(s: Tables, f: int) {
    && 0 <= f < |s.file| == NR_FILE && s.file[f].count == 0
    && forall k :: 0 <= k < f ==> s.file[k].count > 0
  }

  /** The lowest free descriptor of task t from arg on. */
  ghost predicate FirstSlot(s: Tables, t: int, arg: int, d: int)
    requires Shape(s)
  {
    Slot(t, d) && 0 <= arg <= d && s.filp[t][d] == NONE && forall k :: arg <= k < d ==> s.filp[t][k] != NONE
  }

  ghost predicate TwoFreeFiles(s: Tables) {
    exists f, g :: 0 <= f < g < |s.file| && s.file[f].count == 0 == s.file[g].count
  }

  ghost predicate TwoFreeSlots(s: Tables, t: int)
    requires 0 <= t < |s.filp|
  {
    exists d, e :: 0 <= d < e < |s.filp[t]| && s.filp[t][d] == NONE == s.filp[t][e]
  }

  class Kernel {
    const filp: array<seq<int>>
    const pending: array<set<int>>
    const file: array<File>
    const inode: array<Inode>

    ghost function T(): Tables
      reads filp, pending, file, inode
    {
      Tables(filp[..], pending[..], file[..], inode[..])
    }

    ghost predicate Valid()
      reads filp, pending, file, inode
    {
      Inv(T())
    }

    constructor (inodes: nat)
      ensures Valid() && fresh(filp) && fresh(pending) && fresh(file) && fresh(inode) && inode.Length == inodes
    {
      filp := new seq<int>[NR_TASKS](_ => seq(NR_OPEN, _ => NONE));
      pending := new set<int>[NR_TASKS](_ => {});
      file := new File[NR_FILE](_ => File(0, false, 0, 0));
      inode := new Inode[inodes](_ => Inode(false, 0, 0));
      new;
      hide Inv;
      BootInv(T());
    }

    method SetSlotTo(t: int, d: int, f: int)
      requires 0 <= t < filp.Length && 0 <= d < |filp[t]|
      modifies filp
      ensures T() == SetSlot(old(T()), t, d, f)
    {
      filp[t] := filp[t][d := f];
    }

    method SetCount(f: int, n: nat)
      requires 0 <= f < file.Length
      modifies file
      ensures T() == SetFile(old(T()), f, old(file[f]).(count := n))
    {
      file[f] := file[f].(count := n);
    }

    /** First free descriptor from arg on, or NR_OPEN. */
    method FreeSlot(t: int, arg: nat) returns (d: int)
      requires Shape(T()) && 0 <= t < NR_TASKS && arg <= NR_OPEN
      ensures arg <= d <= NR_OPEN && (d < NR_OPEN ==> filp[t][d] == NONE)
      ensures forall k :: arg <= k < d ==> filp[t][k] != NONE
    {
      d := arg;
      while d < NR_OPEN && filp[t][d] != NONE
        invariant arg <= d <= NR_OPEN
        invariant forall k :: arg <= k < d ==> filp[t][k] != NONE
      {
        d := d + 1;
      }
    }

    method FreeFile() returns (f: int)
      requires Shape(T())
      ensures 0 <= f <= NR_FILE && (f < NR_FILE ==> file[f].count == 0)
      ensures forall k :: 0 <= k < f ==> file[k].count > 0
    {
      f := 0;
      while f < NR_FILE && file[f].count > 0
        invariant 0 <= f <= NR_FILE
        invariant forall k :: 0 <= k < f ==> file[k].count > 0
      {
        f := f + 1;
      }
    }

    // ---- sys_open ----

    /** Up to the call of open_namei. */
    method OpenReserve(t: int) returns (fd: int)
      requires Valid() && 0 <= t < NR_TASKS
      modifies filp, pending, file
      ensures Valid()
      ensures fd == -EINVAL ==> T() == old(T())
      ensures fd == -EINVAL ==>
                || (forall d :: 0 <= d < NR_OPEN ==> filp[t][d] != NONE)
                || (forall f :: 0 <= f < NR_FILE ==> file[f].count > 0)
      ensures fd != -EINVAL ==> FirstSlot(old(T()), t, 0, fd)
      ensures fd != -EINVAL ==> FirstFile(old(T()), filp[t][fd])
      ensures fd != -EINVAL ==> T() == Reserve(old(T()), t, fd, filp[t][fd])
    {
      fd := FreeSlot(t, 0);
      if fd >= NR_OPEN {
        return -EINVAL;
      }
      var f := FreeFile();
      if f >= NR_FILE {
        return -EINVAL;
      }
      ReserveKeeps(T(), t, fd, f);
      SetSlotTo(t, fd, f);
      file[f] := file[f].(count := file[f].count + 1, ready := false);
      pending[t] := pending[t] + {fd};
      assert T() == Reserve(old(T()), t, fd, f);
    }

    /** open_namei failed, or the caller has no terminal to open. */
    method OpenError(t: int, fd: int)
      requires Valid() && Slot(t, fd) && fd in pending[t]
      modifies filp, pending, file
      ensures Valid() && old(filp[t])[fd] != NONE && T() == Unreserve(old(T()), t, fd)
    {
      UnreserveKeeps(T(), t, fd);
      var f := filp[t][fd];
      SetSlotTo(t, fd, NONE);
      SetCount(f, 0);
      pending[t] := pending[t] - {fd};
      assert T() == Unreserve(old(T()), t, fd);
    }

    /** open_namei came back with inode p, referenced once on our behalf. */
    method OpenFinish(t: int, fd: int, p: int, mode: int)
      requires Valid() && Slot(t, fd) && fd in pending[t] && 0 <= p < inode.Length && !inode[p].pipe
      modifies pending, file, inode
      ensures Valid() && old(filp[t])[fd] != NONE && T() == Opened(old(T()), t, fd, p, mode)
    {
      OpenedKeeps(T(), t, fd, p, mode);
      inode[p] := inode[p].(count := inode[p].count + 1);
      file[filp[t][fd]] := File(1, true, p, mode);
      pending[t] := pending[t] - {fd};
      assert T() == Opened(old(T()), t, fd, p, mode);
    }

    // ---- sys_close ----

    method IputFile(p: int)
      requires 0 <= p < inode.Length && inode[p].count > 0
      modifies inode
      ensures T() == Iput(old(T()), p)
    {
      var n := inode[p].count - 1;
      if inode[p].pipe {
        inode[p] := Inode(n > 0, n, inode[p].held);
      } else {
        inode[p] := inode[p].(count := n);
      }
    }

    method SysCloseFd(t: int, fd: int) returns (r: int)
      requires Valid() && 0 <= t < NR_TASKS && pending[t] == {}
      modifies filp, file, inode
      ensures Valid()
      ensures r == (if Slot(t, fd) && old(filp[t])[fd] != NONE then 0 else -EINVAL)
      ensures T() == Closed(old(T()), t, fd)
    {
      if fd < 0 || fd >= NR_OPEN {
        return -EINVAL;
      }
      var f := filp[t][fd];
      if f == NONE {
        return -EINVAL;
      }
      CloseKeeps(T(), t, fd);
      SetSlotTo(t, fd, NONE);
      SetCount(f, file[f].count - 1);
      if file[f].count > 0 {
        return 0;
      }
      IputFile(file[f].inode);
      return 0;
    }

    // ---- dup ----

    method DupFd(t: int, fd: int, arg: int) returns (r: int)
      requires Valid() && 0 <= t < NR_TASKS && pending[t] == {} && fd >= 0 && arg >= 0
      modifies filp, file
      ensures Valid()
      ensures r < 0 ==> T() == old(T())
      ensures r == -EBADF <==> !(fd < NR_OPEN && old(filp[t])[fd] != NONE)
      ensures r == -EINVAL <==> fd < NR_OPEN && old(filp[t])[fd] != NONE && arg >= NR_OPEN
      ensures r == -EMFILE
        <==> fd < NR_OPEN && old(filp[t])[fd] != NONE && arg < NR_OPEN
             && (forall k :: arg <= k < NR_OPEN ==> old(filp[t])[k] != NONE)
      ensures r == -EBADF || r == -EINVAL || r == -EMFILE || arg <= r < NR_OPEN
      ensures r >= 0 ==> old(filp[t])[r] == NONE && forall k :: arg <= k < r ==> old(filp[t])[k] != NONE
      ensures r >= 0 ==> T() == Attach(old(T()), t, r, old(filp[t])[fd])
    {
      hide CountsExact, PendingOk, InodesOk, TwoEnds;
      if fd >= NR_OPEN || filp[t][fd] == NONE {
        return -EBADF;
      }
      if arg >= NR_OPEN {
        return -EINVAL;
      }
      r := FreeSlot(t, arg);
      if r >= NR_OPEN {
        return -EMFILE;
      }
      var f := filp[t][fd];
      OpenCounted(T(), t, fd);
      AttachKeeps(T(), t, r, f);
      SetSlotTo(t, r, f);
      SetCount(f, file[f].count + 1);
    }

    /** newfd is closed first, so duplicating a descriptor onto itself ends with it closed. */
    method Dup2(t: int, oldfd: int, newfd: int) returns (r: int)
      requires Valid() && 0 <= t < NR_TASKS && pending[t] == {} && oldfd >= 0 && newfd >= 0
      modifies filp, file, inode
      ensures Valid()
      ensures DupedOnto(old(T()), t, oldfd, newfd, r, T())
    {
      hide CountsExact, PendingOk, InodesOk, TwoEnds, Closed;
      ClosedRow(T(), t, newfd);
      ghost var s := T();
      var _ := SysCloseFd(t, newfd);
      ghost var row := filp[t];
      assert newfd < NR_OPEN ==> row[newfd] == NONE;
      assert oldfd < NR_OPEN && oldfd != newfd ==> row[oldfd] == s.filp[t][oldfd];
      r := DupFd(t, oldfd, newfd);
    }

    // ---- sys_pipe ----

    /** The first loop: two free files, each counted once. */
    method TakeFiles() returns (j: nat, f0: int, f1: int)
      requires Shape(T())
      modifies file
      ensures j <= 2
      ensures j >= 1 ==> 0 <= f0 < NR_FILE && old(file[f0]).count == 0
      ensures j == 2 ==> f0 < f1 < NR_FILE && old(file[f1]).count == 0
      ensures file[..] == Bumped(old(file[..]), j, f0, f1)
      ensures j < 2 ==> !TwoFreeFiles(old(T()))
    {
      j, f0, f1 := 0, 0, 0;
      ghost var was := file[..];
      var i := 0;
      while j < 2 && i < NR_FILE
        invariant j <= 2 && 0 <= i <= NR_FILE
        invariant j >= 1 ==> 0 <= f0 < i && was[f0].count == 0
        invariant j == 2 ==> f0 < f1 < i && was[f1].count == 0
        invariant j < 2 ==> forall k :: 0 <= k < i && (j == 1 ==> k != f0) ==> was[k].count > 0
        invariant file[..] == Bumped(was, j, f0, f1)
      {
        if file[i].count == 0 {
          if j == 0 { f0 := i; } else { f1 := i; }
          file[i] := file[i].(count := file[i].count + 1);
          j := j + 1;
        }
        i := i + 1;
      }
    }

    /** The second loop: two free slots of the caller, named f0 and f1. */
    method TakeSlots(t: int, f0: int, f1: int) returns (j: nat, d0: int, d1: int)
      requires Shape(T()) && 0 <= t < NR_TASKS && 0 <= f0 < NR_FILE && 0 <= f1 < NR_FILE
      modifies filp
      ensures j <= 2
      ensures j >= 1 ==> 0 <= d0 < NR_OPEN && old(filp[t])[d0] == NONE
      ensures j == 2 ==> d0 < d1 < NR_OPEN && old(filp[t])[d1] == NONE
      ensures filp[..] == old(filp[..])[t := Placed(old(filp[t]), j, d0, f0, d1, f1)]
      ensures j < 2 ==> !TwoFreeSlots(old(T()), t)
    {
      j, d0, d1 := 0, 0, 0;
      ghost var was := filp[t];
      var i := 0;
      while j < 2 && i < NR_OPEN
        invariant j <= 2 && 0 <= i <= NR_OPEN
        invariant j >= 1 ==> 0 <= d0 < i && was[d0] == NONE
        invariant j == 2 ==> d0 < d1 < i && was[d1] == NONE
        invariant j < 2 ==> forall k :: 0 <= k < i && (j == 1 ==> k != d0) ==> was[k] != NONE
        invariant filp[..] == old(filp[..])[t := Placed(was, j, d0, f0, d1, f1)]
      {
        assert filp[t] == Placed(was, j, d0, f0, d1, f1);
        if filp[t][i] == NONE {
          if j == 0 {
            d0 := i;
            filp[t] := filp[t][i := f0];
          } else {
            d1 := i;
            filp[t] := filp[t][i := f1];
          }
          j := j + 1;
        }
        i := i + 1;
      }
    }

    /** Up to the call of get_pipe_inode. Failing leaves the tables as they were. */
    method PipeReserve(t: int) returns (ok: bool, d0: int, d1: int)
      requires Valid() && 0 <= t < NR_TASKS
      modifies filp, pending, file
      ensures Valid()
      ensures ok <==> TwoFreeFiles(old(T())) && TwoFreeSlots(old(T()), t)
      ensures !ok ==> T() == old(T())
      ensures ok ==> 0 <= d0 < d1 < NR_OPEN && old(filp[t])[d0] == NONE == old(filp[t])[d1]
      ensures ok ==> 0 <= filp[t][d0] < filp[t][d1] < NR_FILE
      ensures ok ==> T() == Reserve(Reserve(old(T()), t, d0, filp[t][d0]), t, d1, filp[t][d1])
    {
      hide CountsExact, PendingOk, InodesOk, TwoEnds, Reserve;
      ghost var s := T();
      var j, f0, f1 := TakeFiles();
      if j == 1 {
        SetCount(f0, 0);
      }
      if j < 2 {
        assert file[..] == s.file;
        return false, 0, 0;
      }
      var k;
      k, d0, d1 := TakeSlots(t, f0, f1);
      if k == 1 {
        SetSlotTo(t, d0, NONE);
        assert filp[t] == s.filp[t];
      }
      if k < 2 {
        SetCount(f0, 0);
        SetCount(f1, 0);
        assert filp[..] == s.filp;
        assert file[..] == s.file;
        return false, 0, 0;
      }
      file[f0] := file[f0].(ready := false);
      file[f1] := file[f1].(ready := false);
      pending[t] := pending[t] + {d0} + {d1};
      ReserveTwice(s, t, d0, f0, d1, f1, T());
      return true, d0, d1;
    }

    /** get_pipe_inode found no inode or no page. */
    method PipeError(t: int, d0: int, d1: int)
      requires Valid() && Slot(t, d0) && Slot(t, d1) && d0 != d1 && d0 in pending[t] && d1 in pending[t]
      modifies filp, pending, file
      ensures Valid()
      ensures forall u, b :: Slot(u, b) ==> filp[u][b] == (if u == t && (b == d0 || b == d1) then NONE
        else old(filp[u])[b])
      ensures inode[..] == old(inode[..]) && Fewer(old(T()), T())
    {
      ghost var s := T();
      OpenError(t, d1);
      UnreserveFewer(s, t, d1);
      ghost var m := T();
      OpenError(t, d0);
      UnreserveFewer(m, t, d0);
      hide Unreserve, Fewer;
      FewerTrans(s, m, T());
    }

    /** get_pipe_inode returned p. */
    method PipeFinish(t: int, d0: int, d1: int, p: int)
      requires Valid() && Slot(t, d0) && Slot(t, d1) && d0 != d1 && d0 in pending[t] && d1 in pending[t]
      requires 0 <= p < inode.Length && inode[p].count == 0
      modifies pending, file, inode
      ensures Valid() && old(filp[t])[d0] != NONE && old(filp[t])[d1] != NONE
      ensures T() == Piped(old(T()), t, d0, d1, p)
      ensures HasEnd(T(), p, 1) && HasEnd(T(), p, 2)
    {
      hide CountsExact, PendingOk, InodesOk, TwoEnds, HasEnd;
      PipedKeeps(T(), t, d0, d1, p);
      inode[p] := Inode(true, 2, 0);
      file[filp[t][d0]] := File(1, true, p, 1);
      file[filp[t][d1]] := File(1, true, p, 2);
      pending[t] := pending[t] - {d0} - {d1};
      assert T() == Piped(old(T()), t, d0, d1, p);
    }

    // ---- fork and exit ----

    /** The descriptor part of copy_process: the child's task page is a copy of the
        parent's, then every file named in it is counted once more. */
    method ForkSlots(t: int, u: int)
      requires Valid() && 0 <= t < NR_TASKS && 0 <= u < NR_TASKS && t != u && pending[t] == {}
      requires forall d :: 0 <= d < NR_OPEN ==> filp[u][d] == NONE
      modifies filp, file
      ensures Valid() && T() == Forked(old(T()), t, u, NR_OPEN) && filp[u] == filp[t] == old(filp[t])
    {
      hide CountsExact, PendingOk, InodesOk, TwoEnds, Forked, Counted;
      ghost var s := T();
      ghost var row := filp[t];
      ForkKeeps(s, t, u, NR_OPEN);
      filp[u] := filp[t];
      assert file[..] == Counted(s.file, row, 0) by { CountedStep(s.file, row, 0); }
      for i := 0 to NR_OPEN
        invariant filp[..] == s.filp[u := row]
        invariant file[..] == Counted(s.file, row, i)
      {
        var f := filp[u][i];
        assert f == row[i];
        ghost var m := file[..];
        if f != NONE {
          file[f] := file[f].(count := file[f].count + 1);
          assert file[..] == m[f := m[f].(count := m[f].count + 1)];
        }
        CountedStep(s.file, row, i);
      }
      assert row == row[..NR_OPEN] + s.filp[u][NR_OPEN..];
      assert T() == Forked(s, t, u, NR_OPEN);
    }

    /** The descriptor loop of do_exit. */
    method ExitSlots(t: int)
      requires Valid() && 0 <= t < NR_TASKS && pending[t] == {}
      modifies filp, file, inode
      ensures Valid() && SameHolders(old(T()), T()) && Fewer(old(T()), T())
      ensures forall u :: 0 <= u < NR_TASKS ==> filp[u] == if u == t then seq(NR_OPEN, _ => NONE) else old(filp[u])
    {
      hide CountsExact, PendingOk, InodesOk, TwoEnds, Closed;
      ghost var s := T();
      for i := 0 to NR_OPEN
        invariant Valid() && pending[..] == s.pending && SameHolders(s, T()) && Fewer(s, T())
        invariant forall u :: 0 <= u < NR_TASKS && u != t ==> filp[u] == s.filp[u]
        invariant forall d :: 0 <= d < i ==> filp[t][d] == NONE
      {
        if filp[t][i] != NONE {
          ClosedRow(T(), t, i);
          ClosedFewer(T(), t, i);
          var _ := SysCloseFd(t, i);
        }
      }
      assert |T().filp[t]| == NR_OPEN;
    }

    // ---- inodes held by others ----

    method HoldInode(p: int, n: int)
      requires Valid() && 0 <= p < inode.Length && !inode[p].pipe && inode[p].held + n >= 0
      modifies inode
      ensures Valid() && old(inode[p]).count + n >= 0 && T() == Hold(old(T()), p, n)
    {
      HoldKeeps(T(), p, n);
      inode[p] := Inode(inode[p].pipe, inode[p].count + n, inode[p].held + n);
      assert T() == Hold(old(T()), p, n);
    }
  }

  function Bumped(file: seq<File>, j: nat, f0: int, f1: int): seq<File>
    requires j >= 1 ==> 0 <= f0 < |file|
    requires j >= 2 ==> 0 <= f1 < |file|
  {
    if j == 0 then file
    else if j == 1 then file[f0 := file[f0].(count := 1)]
    else file[f0 := file[f0].(count := 1)][f1 := file[f1].(count := 1)]
  }

  function Placed(row: seq<int>, j: nat, d0: int, f0: int, d1: int, f1: int): seq<int>
    requires j >= 1 ==> 0 <= d0 < |row|
    requires j >= 2 ==> 0 <= d1 < |row|
  {
    if j == 0 then row else if j == 1 then row[d0 := f0] else row[d0 := f0][d1 := f1]
  }

  lemma CountedStep(file: seq<File>, row: seq<int>, i: nat)
    requires |file| == NR_FILE && |row| == NR_OPEN && i < NR_OPEN
      && (forall d :: 0 <= d < NR_OPEN ==> NONE <= row[d] < NR_FILE)
    ensures Counted(file, row, 0) == file
    ensures var m := Counted(file, row, i);
            Counted(file, row, i + 1) == if row[i] == NONE then m
              else m[row[i] := m[row[i]].(count := m[row[i]].count + 1)]
  {
  }

  lemma ReserveTwice(s: Tables, t: int, d0: int, f0: int, d1: int, f1: int, r: Tables)
    requires Inv(s) && Slot(t, d0) && Slot(t, d1) && d0 != d1 && s.filp[t][d0] == NONE == s.filp[t][d1]
    requires 0 <= f0 < NR_FILE && 0 <= f1 < NR_FILE && f0 != f1 && s.file[f0].count == 0 == s.file[f1].count
    requires r.filp == s.filp[t := Placed(s.filp[t], 2, d0, f0, d1, f1)]
    requires r.file == s.file[f0 := s.file[f0].(count := 1, ready := false)][f1 := s.file[f1].(count := 1,
      ready := false)]
    requires r.pending == s.pending[t := s.pending[t] + {d0} + {d1}] && r.inode == s.inode
    ensures Inv(Reserve(s, t, d0, f0)) && r == Reserve(Reserve(s, t, d0, f0), t, d1, f1) && Inv(r)
  {
    ReserveKeeps(s, t, d0, f0);
    ReserveKeeps(Reserve(s, t, d0, f0), t, d1, f1);
  }

  /** What dup2 comes to: newfd is closed in any case, and then names oldfd's file,
      unless that is no longer open. */
  ghost predicate DupedOnto(s: Tables, t: int, oldfd: int, newfd: int, r: int, s': Tables)
    requires Inv(s) && 0 <= t < NR_TASKS && s.pending[t] == {} && oldfd >= 0 && newfd >= 0
  {
    var c := Closed(s, t, newfd);
    if oldfd == newfd || oldfd >= NR_OPEN || s.filp[t][oldfd] == NONE then r == -EBADF && s' == c
    else if newfd >= NR_OPEN then r == -EINVAL && s' == c
    else r == newfd && Shape(c) && s' == Attach(c, t, newfd, s.filp[t][oldfd])
  }

  /** sys_close, whether or not fd is open. */
  ghost function Closed(s: Tables, t: int, fd: int): Tables
    requires Inv(s) && 0 <= t < NR_TASKS && s.pending[t] == {}
  {
    if Slot(t, fd) && s.filp[t][fd] != NONE then
      CloseKeeps(s, t, fd);
      Close(s, t, fd)
    else
      s
  }

  /** The references of others to inodes are not touched. */
  ghost predicate SameHolders(s: Tables, r: Tables) {
    |r.inode| == |s.inode| && forall p :: 0 <= p < |s.inode| ==> r.inode[p].held == s.inode[p].held
  }

  lemma ClosedRow(s: Tables, t: int, fd: int)
    requires Inv(s) && 0 <= t < NR_TASKS && s.pending[t] == {}
    ensures Closed(s, t, fd).filp == if Slot(t, fd) then s.filp[t := s.filp[t][fd := NONE]] else s.filp
    ensures Shape(Closed(s, t, fd)) && Closed(s, t, fd).pending == s.pending && SameHolders(s, Closed(s, t, fd))
  {
    hide CountsExact, PendingOk, InodesOk, TwoEnds;
    if Slot(t, fd) && s.filp[t][fd] != NONE {
      CloseKeeps(s, t, fd);
    } else if Slot(t, fd) {
      assert s.filp[t][fd := NONE] == s.filp[t];
    }
  }

  // ---- whole runs ----

  /** Whether the step can be the next one: a task inside open or pipe makes no other
      call, and reserved descriptors are finished with by the call that took them. */
  predicate Enabled(s: Tables, c: Call)
    requires |s.pending| == |s.filp| == NR_TASKS && (forall t :: 0 <= t < NR_TASKS ==> |s.filp[t]| == NR_OPEN)
  {
    match c
    case OpenBegin(t) => 0 <= t < NR_TASKS && s.pending[t] == {}
    case OpenDone(t, d, p, _) => Slot(t, d) && s.pending[t] == {d} && 0 <= p < |s.inode| && !s.inode[p].pipe
    case OpenFail(t, d) => Slot(t, d) && s.pending[t] == {d}
    case SysClose(t, d) => 0 <= t < NR_TASKS && s.pending[t] == {}
    case SysDup(t, d) => 0 <= t < NR_TASKS && s.pending[t] == {} && d >= 0
    case SysDup2(t, d, e) => 0 <= t < NR_TASKS && s.pending[t] == {} && d >= 0 && e >= 0
    case PipeBegin(t) => 0 <= t < NR_TASKS && s.pending[t] == {}
    case PipeDone(t, d0, d1, p) => Slot(t, d0) && Slot(t, d1) && d0 < d1 && s.pending[t] == {d0, d1}
      && (0 <= p < |s.inode| ==> s.inode[p].count == 0)
    case Fork(t, u) => 0 <= t < NR_TASKS && 0 <= u < NR_TASKS && t != u && s.pending[t] == {}
      && (forall d :: 0 <= d < NR_OPEN ==> s.filp[u][d] == NONE)
    case Exit(t) => 0 <= t < NR_TASKS && s.pending[t] == {}
    case Iget(p) => 0 <= p < |s.inode| && !s.inode[p].pipe
    case IputHeld(p) => 0 <= p < |s.inode| && !s.inode[p].pipe && s.inode[p].held > 0
  }

  /** Open files only go away. */
  ghost predicate Fewer(s: Tables, r: Tables) {
    && |r.file| == |s.file| && |r.inode| == |s.inode|
    && forall p, f :: End(r, p, f) ==> End(s, p, f) && r.file[f].mode == s.file[f].mode
  }

  /** No pipe gains an open file. */
  ghost predicate NoNewEnds(s: Tables, r: Tables) {
    && |r.file| == |s.file| && |r.inode| == |s.inode|
    && forall p, f :: 0 <= p < |s.inode| && s.inode[p].pipe && End(r, p, f)
         ==> End(s, p, f) && r.file[f].mode == s.file[f].mode
  }

  lemma ClosedFewer(s: Tables, t: int, fd: int)
    requires Inv(s) && 0 <= t < NR_TASKS && s.pending[t] == {}
    ensures Fewer(s, Closed(s, t, fd))
  {
    hide CountsExact, PendingOk, TwoEnds;
    if Slot(t, fd) && s.filp[t][fd] != NONE {
      CloseKeeps(s, t, fd);
    }
  }

  lemma UnreserveFewer(s: Tables, t: int, d: int)
    requires Shape(s) && Slot(t, d) && s.filp[t][d] != NONE
    ensures Fewer(s, Unreserve(s, t, d))
  {
  }

  lemma FewerTrans(s: Tables, m: Tables, r: Tables)
    requires Fewer(s, m) && Fewer(m, r)
    ensures Fewer(s, r)
  {
  }

  lemma ReserveNoNew(s: Tables, t: int, d: int, f: int)
    requires Shape(s) && Slot(t, d) && 0 <= f < NR_FILE && s.file[f].count == 0
    ensures Fewer(s, Reserve(s, t, d, f))
  {
  }

  lemma OpenedNoNew(s: Tables, t: int, d: int, p: int, mode: int)
    requires Shape(s) && Slot(t, d) && s.filp[t][d] != NONE && 0 <= p < |s.inode| && !s.inode[p].pipe
    ensures NoNewEnds(s, Opened(s, t, d, p, mode))
  {
  }

  lemma DupFewer(s: Tables, t: int, d: int, e: int)
    requires Inv(s) && Slot(t, d) && Slot(t, e) && s.filp[t][d] != NONE && d !in s.pending[t]
    ensures Fewer(s, Attach(s, t, e, s.filp[t][d]))
  {
    OpenCounted(s, t, d);
  }

  lemma DupedFewer(s: Tables, t: int, d: int, e: int, r: int, s': Tables)
    requires Inv(s) && 0 <= t < NR_TASKS && s.pending[t] == {} && d >= 0 && e >= 0 && DupedOnto(s, t, d, e, r, s')
    requires Inv(Closed(s, t, e))
    ensures Fewer(s, s')
  {
    var c := Closed(s, t, e);
    ClosedFewer(s, t, e);
    ClosedRow(s, t, e);
    if s' != c {
      assert c.filp[t][d] == s.filp[t][d];
      DupFewer(c, t, d, e);
    }
  }

  lemma ClosedInv(s: Tables, t: int, fd: int)
    requires Inv(s) && 0 <= t < NR_TASKS && s.pending[t] == {}
    ensures Inv(Closed(s, t, fd))
  {
    if Slot(t, fd) && s.filp[t][fd] != NONE {
      CloseKeeps(s, t, fd);
    }
  }

  lemma {:induction false} CountedFewer(file: seq<File>, row: seq<int>, k: nat)
    requires |file| == NR_FILE && |row| == NR_OPEN && k <= NR_OPEN
    requires forall d :: 0 <= d < NR_OPEN ==> NONE <= row[d] < NR_FILE && (row[d] != NONE ==> file[row[d]].count > 0)
    ensures forall f :: 0 <= f < NR_FILE ==>
      Counted(file, row, k)[f] == file[f].(count := Counted(file, row, k)[f].count)
      && (Counted(file, row, k)[f].count > 0 ==> file[f].count > 0)
  {
    if k > 0 {
      CountedFewer(file, row, k - 1);
    }
  }

  lemma ForkFewer(s: Tables, t: int, u: int)
    requires Inv(s) && 0 <= t < NR_TASKS && 0 <= u < NR_TASKS && t != u && s.pending[t] == {}
    ensures Fewer(s, Forked(s, t, u, NR_OPEN))
  {
    forall d | 0 <= d < NR_OPEN && s.filp[t][d] != NONE
      ensures s.file[s.filp[t][d]].count > 0
    {
      OpenCounted(s, t, d);
    }
    CountedFewer(s.file, s.filp[t], NR_OPEN);
  }

  /** A new pipe's inode was free, so it was no pipe before. */
  lemma PipedNoNew(s: Tables, t: int, d0: int, d1: int, p: int)
    requires Inv(s) && Slot(t, d0) && Slot(t, d1) && s.filp[t][d0] != NONE && s.filp[t][d1] != NONE
    requires 0 <= p < |s.inode| && s.inode[p].count == 0
    ensures NoNewEnds(s, Piped(s, t, d0, d1, p))
  {
    hide CountsExact, PendingOk, TwoEnds;
    NoEnds(s, p);
  }

  // ---- what the calls answer ----

  datatype Answer = Ignored | Done | Value(r: int) | Reserved(ok: bool, d0: int, d1: int)

  /** sys_open's first half: the lowest descriptor and the first file, or EINVAL exactly
      when one of them is lacking. */
  ghost predicate OpenBegan(s: Tables, t: int, r: int, s': Tables)
    requires Shape(s) && 0 <= t < NR_TASKS
  {
    if (forall d :: !FirstSlot(s, t, 0, d)) || (forall f :: !FirstFile(s, f)) then r == -EINVAL && s' == s
    else FirstSlot(s, t, 0, r) && exists f :: FirstFile(s, f) && s' == Reserve(s, t, r, f)
  }

  ghost predicate Duped(s: Tables, t: int, fd: int, r: int, s': Tables)
    requires Shape(s) && 0 <= t < NR_TASKS && 0 <= fd
  {
    if fd >= NR_OPEN || s.filp[t][fd] == NONE then r == -EBADF && s' == s
    else if forall d :: !FirstSlot(s, t, 0, d) then r == -EMFILE && s' == s
    else FirstSlot(s, t, 0, r) && s' == Attach(s, t, r, s.filp[t][fd])
  }

  ghost predicate PipeBegan(s: Tables, t: int, ok: bool, d0: int, d1: int, s': Tables)
    requires Shape(s) && 0 <= t < NR_TASKS
  {
    && (ok <==> TwoFreeFiles(s) && TwoFreeSlots(s, t))
    && if !ok then s' == s
       else
         && 0 <= d0 < d1 < NR_OPEN && s.filp[t][d0] == NONE == s.filp[t][d1]
         && exists f0, f1 :: 0 <= f0 < f1 < NR_FILE && Shape(Reserve(s, t, d0, f0))
                             && s' == Reserve(Reserve(s, t, d0, f0), t, d1, f1)
  }

  /** The names of both ends taken back. */
  ghost predicate PipeGivenUp(s: Tables, t: int, d0: int, d1: int, s': Tables)
    requires Shape(s)
  {
    && Shape(s') && s'.inode == s.inode
    && forall u, b :: Slot(u, b) ==>
         s'.filp[u][b] == if u == t && (b == d0 || b == d1) then NONE else s.filp[u][b]
  }

  ghost predicate Exited(s: Tables, t: int, s': Tables)
    requires Shape(s)
  {
    && Shape(s') && SameHolders(s, s') && Fewer(s, s')
    && forall u :: 0 <= u < NR_TASKS ==> s'.filp[u] == if u == t then seq(NR_OPEN, _ => NONE) else s.filp[u]
  }

  /** What a call may answer and do. */
  ghost predicate Outcome(s: Tables, c: Call, a: Answer, s': Tables)
    requires Inv(s)
  {
    if !Enabled(s, c) then a == Ignored && s' == s else
    match c
    case OpenBegin(t) => a.Value? && OpenBegan(s, t, a.r, s')
    case OpenDone(t, d, p, mode) => a == Done && s.filp[t][d] != NONE && s' == Opened(s, t, d, p, mode)
    case OpenFail(t, d) => a == Done && s.filp[t][d] != NONE && s' == Unreserve(s, t, d)
    case SysClose(t, d) =>
      a == Value(if Slot(t, d) && s.filp[t][d] != NONE then 0 else -EINVAL) && s' == Closed(s, t, d)
    case SysDup(t, d) => a.Value? && Duped(s, t, d, a.r, s')
    case SysDup2(t, d, e) => a.Value? && DupedOnto(s, t, d, e, a.r, s')
    case PipeBegin(t) => a.Reserved? && PipeBegan(s, t, a.ok, a.d0, a.d1, s')
    case PipeDone(t, d0, d1, p) =>
      a == Done && s.filp[t][d0] != NONE && s.filp[t][d1] != NONE
      && if 0 <= p < |s.inode| then s' == Piped(s, t, d0, d1, p) else PipeGivenUp(s, t, d0, d1, s')
    case Fork(t, u) => a == Done && s' == Forked(s, t, u, NR_OPEN)
    case Exit(t) => a == Done && Exited(s, t, s')
    case Iget(p) => a == Done && s' == Hold(s, p, 1)
    case IputHeld(p) => a == Done && s.inode[p].count >= 1 && s' == Hold(s, p, -1)
  }

  method PerformOpen(k: Kernel, c: Call) returns (a: Answer)
    requires k.Valid() && (c.OpenBegin? || c.OpenDone? || c.OpenFail?) && Enabled(k.T(), c)
    modifies k.filp, k.pending, k.file, k.inode
    ensures k.Valid() && NoNewEnds(old(k.T()), k.T()) && Outcome(old(k.T()), c, a, k.T())
  {
    hide CountsExact, PendingOk, InodesOk, TwoEnds, Opened, Reserve, Unreserve, End;
    ghost var s := k.T();
    a := Done;
    match c
    case OpenBegin(t) =>
      var fd := k.OpenReserve(t);
      if fd != -EINVAL {
        assert FirstSlot(s, t, 0, fd);
        ReserveNoNew(s, t, fd, k.filp[t][fd]);
      }
      a := Value(fd);
    case OpenDone(t, d, p, mode) =>
      k.OpenFinish(t, d, p, mode);
      OpenedNoNew(s, t, d, p, mode);
    case OpenFail(t, d) =>
      k.OpenError(t, d);
      UnreserveFewer(s, t, d);
  }

  method PerformPipe(k: Kernel, c: Call) returns (a: Answer)
    requires k.Valid() && (c.PipeBegin? || c.PipeDone?) && Enabled(k.T(), c)
    modifies k.filp, k.pending, k.file, k.inode
    ensures k.Valid() && NoNewEnds(old(k.T()), k.T()) && Outcome(old(k.T()), c, a, k.T())
  {
    hide CountsExact, PendingOk, InodesOk, TwoEnds, Piped, End;
    ghost var s := k.T();
    a := Done;
    match c
    case PipeBegin(t) =>
      var ok, d0, d1 := k.PipeReserve(t);
      if ok {
        TwoReserved(s, t, d0, k.filp[t][d0], d1, k.filp[t][d1], k.T());
      }
      a := Reserved(ok, d0, d1);
    case PipeDone(t, d0, d1, p) =>
      PendingNamed(s, t, d0);
      PendingNamed(s, t, d1);
      if 0 <= p < k.inode.Length {
        k.PipeFinish(t, d0, d1, p);
        PipedNoNew(s, t, d0, d1, p);
      } else {
        k.PipeError(t, d0, d1);
      }
  }

  lemma PendingNamed(s: Tables, t: int, d: int)
    requires Inv(s) && Slot(t, d) && d in s.pending[t]
    ensures s.filp[t][d] != NONE
  {
    assert Unready(s, t, d);
  }

  lemma TwoReserved(s: Tables, t: int, d0: int, f0: int, d1: int, f1: int, r: Tables)
    requires Shape(s) && Slot(t, d0) && Slot(t, d1) && d0 != d1 && 0 <= f0 < NR_FILE && 0 <= f1 < NR_FILE
    requires Shape(Reserve(s, t, d0, f0)) && r == Reserve(Reserve(s, t, d0, f0), t, d1, f1)
    ensures Fewer(s, r)
  {
  }

  lemma HoldFewer(s: Tables, p: int, n: int)
    requires 0 <= p < |s.inode| && s.inode[p].held + n >= 0 && s.inode[p].count + n >= 0
    ensures Fewer(s, Hold(s, p, n))
  {
  }

  method Perform(k: Kernel, c: Call) returns (a: Answer)
    requires k.Valid()
    modifies k.filp, k.pending, k.file, k.inode
    ensures k.Valid() && NoNewEnds(old(k.T()), k.T()) && Outcome(old(k.T()), c, a, k.T())
  {
    hide CountsExact, PendingOk, InodesOk, TwoEnds, Closed, Forked, Attach, End;
    ghost var s := k.T();
    if !Enabled(Tables(k.filp[..], k.pending[..], k.file[..], k.inode[..]), c) {
      return Ignored;
    }
    a := Done;
    match c
    case SysClose(t, d) =>
      ClosedFewer(s, t, d);
      var r := k.SysCloseFd(t, d);
      a := Value(r);
    case SysDup(t, d) =>
      var r := k.DupFd(t, d, 0);
      if r >= 0 {
        DupFewer(s, t, d, r);
        assert FirstSlot(s, t, 0, r);
      }
      a := Value(r);
    case SysDup2(t, d, e) =>
      var r := k.Dup2(t, d, e);
      ClosedInv(s, t, e);
      DupedFewer(s, t, d, e, r, k.T());
      a := Value(r);
    case Fork(t, u) =>
      ForkFewer(s, t, u);
      k.ForkSlots(t, u);
    case Exit(t) => k.ExitSlots(t);
    case Iget(p) =>
      k.HoldInode(p, 1);
      HoldFewer(s, p, 1);
    case IputHeld(p) =>
      k.HoldInode(p, -1);
      HoldFewer(s, p, -1);
    case PipeBegin(_) => a := PerformPipe(k, c);
    case PipeDone(_, _, _, _) => a := PerformPipe(k, c);
    case _ => a := PerformOpen(k, c);
  }

  /** After any interleaving of the tasks' calls every f_count is the number of
      descriptor slots naming that file, every i_count the number of its open files
      plus its other holders, and a pipe counts 2 exactly while both ends are named; each
      call answers as it should. `trace` holds the tables passed through. */
  method Run(inodes: nat, calls: seq<Call>) returns (k: Kernel, answers: seq<Answer>, ghost trace: seq<Tables>)
    ensures fresh(k) && k.Valid() && |answers| == |calls| && |trace| == |calls| + 1 && trace[|calls|] == k.T()
    ensures forall i :: 0 <= i <= |calls| ==> Inv(trace[i])
    ensures forall i :: 0 <= i < |calls| ==> Outcome(trace[i], calls[i], answers[i], trace[i + 1])
    ensures forall f :: 0 <= f < NR_FILE ==> k.T().file[f].count == |Refs(k.T(), f)|
    ensures forall p :: 0 <= p < |k.T().inode| ==> k.T().inode[p].count == |Ends(k.T(), p)| + k.T().inode[p].held
    ensures forall p :: 0 <= p < |k.T().inode| && k.T().inode[p].pipe ==>
              (k.T().inode[p].count == 2 <==> HasEnd(k.T(), p, 1) && HasEnd(k.T(), p, 2))
  {
    k := new Kernel(inodes);
    answers, trace := [], [k.T()];
    for i := 0 to |calls|
      invariant k.Valid() && fresh(k.filp) && fresh(k.pending) && fresh(k.file) && fresh(k.inode)
      invariant |answers| == i && |trace| == i + 1 && trace[i] == k.T()
      invariant forall j :: 0 <= j <= i ==> Inv(trace[j])
      invariant forall j :: 0 <= j < i ==> Outcome(trace[j], calls[j], answers[j], trace[j + 1])
    {
      hide Inv, Outcome, NoNewEnds;
      var a := Perform(k, calls[i]);
      answers, trace := answers + [a], trace + [k.T()];
    }
    forall p | 0 <= p < |k.T().inode| && k.T().inode[p].pipe
      ensures k.T().inode[p].count == 2 <==> HasEnd(k.T(), p, 1) && HasEnd(k.T(), p, 2)
    {
      PipeCount(k.T(), p);
    }
  }

  /** Whatever the tasks go on to do, an end of a pipe that no descriptor names any more
      is named by none as long as the inode stays that pipe. With ShortReadMeansNoWriter:
      once a reader has seen a count other than 2 nobody can write to him again. `trace`
      holds the tables before, between and after the calls. */
  method Watch(k: Kernel, calls: seq<Call>, p: int) returns (ghost trace: seq<Tables>)
    requires k.Valid() && 0 <= p < k.inode.Length
    modifies k.filp, k.pending, k.file, k.inode
    ensures k.Valid() && |trace| == |calls| + 1 && trace[0] == old(k.T()) && trace[|calls|] == k.T()
    ensures forall i :: 0 <= i < |calls| ==> NoNewEnds(trace[i], trace[i + 1])
    ensures StaysPipe(trace, p) ==> forall m :: HasEnd(k.T(), p, m) ==> old(HasEnd(k.T(), p, m))
  {
    trace := [k.T()];
    for i := 0 to |calls|
      invariant k.Valid() && |trace| == i + 1 && trace[0] == old(k.T()) && trace[i] == k.T()
      invariant forall j :: 0 <= j < i ==> NoNewEnds(trace[j], trace[j + 1])
      invariant StaysPipe(trace, p) ==> forall f :: End(k.T(), p, f) ==> KeptEnd(trace[0], k.T(), p, f)
    {
      ghost var before := trace;
      var _ := Perform(k, calls[i]);
      trace := trace + [k.T()];
      if StaysPipe(trace, p) {
        StayedPipe(before, trace, p);
        assert trace[i] == before[i];
      }
    }
    if StaysPipe(trace, p) {
      forall m | HasEnd(k.T(), p, m)
        ensures old(HasEnd(k.T(), p, m))
      {
        var t, d :| Slot(t, d) && k.T().filp[t][d] != NONE && End(k.T(), p, k.T().filp[t][d])
                    && k.T().file[k.T().filp[t][d]].mode == m;
        assert KeptEnd(trace[0], k.T(), p, k.T().filp[t][d]);
        EndHasSlot(trace[0], p, k.T().filp[t][d]);
      }
    }
  }

  ghost predicate StaysPipe(trace: seq<Tables>, p: int) {
    forall i :: 0 <= i < |trace| ==> 0 <= p < |trace[i].inode| && trace[i].inode[p].pipe
  }

  predicate KeptEnd(s: Tables, r: Tables, p: int, f: int) {
    End(s, p, f) && f < |r.file| && r.file[f].mode == s.file[f].mode
  }

  lemma StayedPipe(before: seq<Tables>, trace: seq<Tables>, p: int)
    requires |trace| == |before| + 1 && trace[..|before|] == before && StaysPipe(trace, p)
    ensures StaysPipe(before, p)
  {
    forall i | 0 <= i < |before|
      ensures 0 <= p < |before[i].inode| && before[i].inode[p].pipe
    {
      assert before[i] == trace[i];
    }
  }

  /** Descriptor f of task t can be duplicated to d. */
  ghost predicate CanDup(s: Tables, t: int, d: int, f: int)
    requires Shape(s)
  {
    Slot(t, d) && Slot(t, f) && s.filp[t][f] != NONE && d != f && f !in s.pending[t] && s.filp[t][d] == NONE
  }

  /** What read_pipe relies on: while the reader still has its own descriptor, a
      count other than 2 means that no task has the write end any more, and that
      duplicating some other descriptor does not bring it back. */
  lemma ShortReadMeansNoWriter(s: Tables, p: int)
    requires Inv(s) && 0 <= p < |s.inode| && s.inode[p].pipe && HasEnd(s, p, 1)
    ensures s.inode[p].count != 2 <==> !HasEnd(s, p, 2)
    ensures s.inode[p].count != 2 ==> forall t, d, f :: CanDup(s, t, d, f) ==>
      s.file[s.filp[t][f]].count > 0 && !HasEnd(Attach(s, t, d, s.filp[t][f]), p, 2)
  {
    PipeCount(s, p);
    forall t, d, f | CanDup(s, t, d, f) && s.inode[p].count != 2
      ensures s.file[s.filp[t][f]].count > 0 && !HasEnd(Attach(s, t, d, s.filp[t][f]), p, 2)
    {
      OpenCounted(s, t, f);
      var r := Attach(s, t, d, s.filp[t][f]);
      forall u, b | Slot(u, b) && r.filp[u][b] != NONE && End(r, p, r.filp[u][b])
        ensures r.file[r.filp[u][b]].mode != 2
      {
        assert (u, b) != (t, d) ==> r.filp[u][b] == s.filp[u][b];
        assert End(s, p, r.filp[u][b]);
        assert s.filp[t][f] == r.filp[t][f];
      }
    }
  }
}
