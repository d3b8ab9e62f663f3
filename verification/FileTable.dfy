/** The file table and the tasks' descriptors, changed in place by open, pipe, dup, close, fork and exit. */
module FileTable {
  import opened OpenFiles
  import opened Options

  class Files {
    const counts: array<nat>
    const inodes: array<nat>
    var tasks: map<nat, Descriptors>
    /** References of open files on inodes. */
    var held: map<nat, int>

    ghost function St(): State
      reads this, counts, inodes
    {
      State(counts[..], inodes[..], tasks, held)
    }

    ghost predicate Valid()
      reads this, counts, inodes
    {
      counts != inodes && Inv(St())
    }

    constructor (keyboard: nat, console: nat)
      requires keyboard != console
      ensures Valid() && fresh(counts) && fresh(inodes) && St() == Boot(keyboard, console)
    {
      counts := new nat[FILE_NR](f => if f < 3 then 3 else 0);
      inodes := new nat[FILE_NR](f => if f == 0 then keyboard else if f < 3 then console else 0);
      tasks := map[0 := BootFiles(), 1 := BootFiles(), 2 := BootFiles()];
      held := map[keyboard := 1, console := 2];
      new;
      BootInv(keyboard, console);
      assert counts[..] == Boot(keyboard, console).counts && inodes[..] == Boot(keyboard, console).inodes;
    }

    /** The first unused file from number 3 on, or None where the kernel stops. */
    method FindFile() returns (f: Option<nat>)
      requires Valid()
      ensures f.Some? ==> FirstUnused(St(), f.value)
      ensures f.None? ==> forall g | 3 <= g < FILE_NR :: counts[g] > 0
    {
      var i: nat := 3;
      while i < FILE_NR
        invariant 3 <= i <= FILE_NR && forall g | 3 <= g < i :: counts[g] > 0
      {
        if counts[i] == 0 {
          return Some(i);
        }
        i := i + 1;
      }
      return None;
    }

    /** The first free descriptor of task t from low on, or None. */
    method FindDescriptor(t: nat, low: nat) returns (d: Option<nat>)
      requires t in tasks
      ensures d.Some? ==> FirstFree(St(), t, low, d.value)
      ensures d.None? ==> forall e | low <= e < TASK_FILE_NR :: tasks[t][e].Some?
    {
      var i := low;
      while i < TASK_FILE_NR
        invariant low <= i && forall e | low <= e < i && e < TASK_FILE_NR :: tasks[t][e].Some?
      {
        if tasks[t][i].None? {
          return Some(i);
        }
        i := i + 1;
      }
      return None;
    }

    /** sys_open once the inode i is found; None where the kernel stops for want of descriptors or files. */
    method Open(t: nat, i: nat) returns (fd: Option<nat>)
      requires Valid() && t in tasks
      modifies this`tasks, this`held, counts, inodes
      ensures Valid() && tasks.Keys == old(tasks.Keys)
      ensures fd.None? ==> St() == old(St())
      ensures fd.None? <==> !exists d, f :: FirstFree(old(St()), t, 3, d) && FirstUnused(old(St()), f)
      ensures fd.Some? ==> exists f :: Step(old(St()), OpenFiles.Open(t, fd.value, f, i), St())
      ensures fd.Some? ==> 3 <= fd.value < TASK_FILE_NR && old(tasks[t][fd.value].None?) && tasks[t][fd.value].Some?
      ensures fd.Some? ==> tasks[t][fd.value].value < FILE_NR && inodes[tasks[t][fd.value].value] == i && Held(St(), i) == old(Held(St(), i)) + 1
    {
      hide InTable, CountOk, HeldOk;
      fd := FindDescriptor(t, 3);
      if fd.None? {
        return;
      }
      var file := FindFile();
      if file.None? {
        return None;
      }
      var f := file.value;
      OpenedKeeps(St(), t, fd.value, f, i);
      tasks := tasks[t := tasks[t][fd.value := Some(f)]];
      inodes[f] := i;
      counts[f] := 1;
      held := held[i := (if i in held then held[i] else 0) + 1];
      assert St() == Opened(old(St()), t, fd.value, f, i);
      assert Step(old(St()), OpenFiles.Open(t, fd.value, f, i), St());
    }

    /** sys_pipe on a fresh pipe inode i, which both of its files hold; None where the kernel stops. */
    method MakePipe(t: nat, i: nat) returns (fds: Option<(nat, nat)>)
      requires Valid() && t in tasks
      modifies this`tasks, this`held, counts, inodes
      ensures Valid()
      ensures fds.None? <==> !exists d, f, e, g, m :: Step(old(St()), Pipe(t, d, f, e, g, i), m)
      ensures fds.Some? ==> exists f, g :: Step(old(St()), Pipe(t, fds.value.0, f, fds.value.1, g, i), St())
      ensures fds.Some? ==> Held(St(), i) == old(Held(St(), i)) + 2
    {
      hide Inv, Step;
      ghost var s := St();
      var d := Open(t, i);
      if d.None? {
        PipeNeedsOne(s, t, i);
        return None;
      }
      ghost var f :| Step(s, OpenFiles.Open(t, d.value, f, i), St());
      ghost var m := St();
      var e := Open(t, i);
      if e.None? {
        PipeNeedsTwo(s, m, t, d.value, f, i);
        return None;
      }
      ghost var g :| Step(m, OpenFiles.Open(t, e.value, g, i), St());
      fds := Some((d.value, e.value));
      PipeIsTwo(s, m, St(), t, d.value, f, e.value, g, i);
    }

    /** sys_close: nothing happens for a descriptor that is not open. */
    method Close(t: nat, d: nat)
      requires Valid() && t in tasks && d < TASK_FILE_NR
      modifies this`tasks, this`held, counts
      ensures Valid()
      ensures old(tasks[t][d].None?) ==> St() == old(St())
      ensures old(tasks[t][d].Some?) ==> Step(old(St()), OpenFiles.Close(t, d), St())
    {
      hide InTable, CountOk, HeldOk;
      if tasks[t][d].None? {
        return;
      }
      ClosedKeeps(St(), t, d);
      var f := tasks[t][d].value;
      assert counts[f] > 0;
      counts[f] := counts[f] - 1;
      if counts[f] == 0 {
        var i := inodes[f];
        held := held[i := (if i in held then held[i] else 0) - 1];
      }
      tasks := tasks[t := tasks[t][d := None]];
      assert St() == Closed(old(St()), t, d);
    }

    /** dupfd: a copy of descriptor fd in the first free place from low on; None stands for EOF. */
    method DupFrom(t: nat, fd: nat, low: nat) returns (r: Option<nat>)
      requires Valid() && t in tasks
      modifies this`tasks, counts
      ensures Valid()
      ensures r.None? ==> St() == old(St())
      ensures r.None? <==> !(fd < TASK_FILE_NR && old(tasks[t][fd].Some?) && exists d :: FirstFree(old(St()), t, low, d))
      ensures r.Some? ==> FirstFree(old(St()), t, low, r.value) && Step(old(St()), Dup(t, fd, r.value), St())
    {
      hide InTable, CountOk, HeldOk;
      if fd >= TASK_FILE_NR || tasks[t][fd].None? {
        return None;
      }
      r := FindDescriptor(t, low);
      if r.None? {
        return;
      }
      var f := tasks[t][fd].value;
      UsedIsOpen(St(), t, fd);
      SharedKeeps(St(), t, r.value, f);
      tasks := tasks[t := tasks[t][r.value := Some(f)]];
      counts[f] := counts[f] + 1;
      assert St() == Shared(old(St()), t, r.value, f);
    }

    /** sys_dup2: afterwards the new descriptor points where the old one does, unless the old one is not open. */
    method Dup2(t: nat, oldfd: nat, newfd: nat) returns (r: Option<nat>)
      requires Valid() && t in tasks && (newfd < TASK_FILE_NR || oldfd == newfd)
      modifies this`tasks, this`held, counts
      ensures Valid() && tasks.Keys == old(tasks.Keys)
      ensures oldfd == newfd ==> r == Some(newfd) && St() == old(St())
      ensures oldfd != newfd && oldfd < TASK_FILE_NR && old(tasks[t][oldfd]).Some? ==>
                r == Some(newfd) && tasks[t] == old(tasks[t])[newfd := old(tasks[t][oldfd])]
      ensures oldfd != newfd && !(oldfd < TASK_FILE_NR && old(tasks[t][oldfd]).Some?) ==>
                r == None && tasks[t] == old(tasks[t])[newfd := None]
    {
      hide InTable, CountOk, HeldOk;
      if oldfd == newfd {
        return Some(newfd);
      }
      Close(t, newfd);
      assert tasks[t] == old(tasks[t])[newfd := None];
      assert FirstFree(St(), t, newfd, newfd);
      r := DupFrom(t, oldfd, newfd);
    }

    /** The part of fork that copies and counts descriptors. */
    method ForkFiles(p: nat, child: nat)
      requires Valid() && p in tasks && child !in tasks
      modifies this`tasks, counts
      ensures Valid() && Step(old(St()), Fork(p, child), St())
      ensures tasks == old(tasks)[child := old(tasks[p])]
    {
      hide CountOk, HeldOk;
      ghost var s := St();
      NewTask(s, child);
      tasks := tasks[child := NoFiles()];
      var i: nat := 0;
      while i < TASK_FILE_NR
        invariant i <= TASK_FILE_NR && Valid() && St() == Forked(s, p, child, i)
      {
        if tasks[p][i].Some? {
          var f := tasks[p][i].value;
          UsedIsOpen(St(), p, i);
          SharedKeeps(St(), child, i, f);
          tasks := tasks[child := tasks[child][i := Some(f)]];
          counts[f] := counts[f] + 1;
        }
        i := i + 1;
      }
      ForkedKeeps(s, p, child, TASK_FILE_NR);
    }

    /** The part of exit that closes descriptors, after which the process is gone. */
    method ExitFiles(t: nat)
      requires Valid() && t in tasks
      modifies this`tasks, this`held, counts
      ensures Valid() && Step(old(St()), Exit(t), St())
      ensures tasks == old(tasks) - {t}
    {
      hide InTable, CountOk, HeldOk, ClosedAll;
      ghost var s := St();
      var i: nat := 0;
      NoneClosed(s, t);
      while i < TASK_FILE_NR
        invariant i <= TASK_FILE_NR && Valid() && t in tasks && ClosedAll(s, t, i) == Some(St())
      {
        NextClosed(s, t, i, St());
        Close(t, i);
        i := i + 1;
      }
      TaskGone(St(), t);
      tasks := tasks - {t};
    }
  }

  lemma PipeNeedsOne(s: State, t: nat, i: nat)
    requires Inv(s) && !exists d, f :: FirstFree(s, t, 3, d) && FirstUnused(s, f)
    ensures !exists d, f, e, g, r :: Step(s, Pipe(t, d, f, e, g, i), r)
  {
    hide InTable, CountOk, HeldOk;
  }

  lemma PipeNeedsTwo(s: State, m: State, t: nat, d: nat, f: nat, i: nat)
    requires Inv(s) && Inv(m) && Step(s, OpenFiles.Open(t, d, f, i), m)
    requires !exists e, g :: FirstFree(m, t, 3, e) && FirstUnused(m, g)
    ensures !exists d', f', e, g, r :: Step(s, Pipe(t, d', f', e, g, i), r)
  {
    hide InTable, CountOk, HeldOk;
    assert forall d' | FirstFree(s, t, 3, d') :: d' == d;
    assert forall f' | FirstUnused(s, f') :: f' == f;
  }

  lemma PipeIsTwo(s: State, m: State, r: State, t: nat, d: nat, f: nat, e: nat, g: nat, i: nat)
    requires Inv(s) && Step(s, OpenFiles.Open(t, d, f, i), m) && Step(m, OpenFiles.Open(t, e, g, i), r)
    ensures Step(s, Pipe(t, d, f, e, g, i), r)
  {
    hide Inv;
  }
}
