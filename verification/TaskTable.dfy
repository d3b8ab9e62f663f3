/** The kernel's task table changed in place by fork, exit and waitpid. */
module TaskTable {
  import opened Limits
  import opened Options
  import opened Processes

  class Tasks {
    const slots: array<Option<Task>>

    ghost predicate Valid()
      reads this
    {
      slots.Length == NR_TASKS
    }

    /** The table with only the three tasks made at boot. */
    constructor ()
      ensures Valid() && fresh(slots) && slots[..] == BootTable()
    {
      slots := new Option<Task>[NR_TASKS](i => None);
      new;
      slots[0], slots[1], slots[2] := Some(FIRST_TASK), Some(FIRST_TASK), Some(FIRST_TASK);
      assert slots[..] == BootTable();
    }

    /** None when the table is full, where the kernel stops. */
    method GetFree() returns (k: Option<nat>)
      requires Valid()
      ensures match k
              case None => FirstFree(slots[..]) == NR_TASKS
              case Some(i) => i == FirstFree(slots[..]) < NR_TASKS
    {
      var i: nat := 0;
      while i < slots.Length
        invariant i <= slots.Length && forall j | 0 <= j < i :: slots[j].Some?
      {
        if slots[i].None? {
          assert slots[..][i] == slots[i];
          return Some(i);
        }
        i := i + 1;
      }
      return None;
    }

    /** A child of task p, or None when the table is full. */
    method Fork(p: nat) returns (pid: Option<nat>)
      requires Valid() && p < NR_TASKS && slots[p].Some?
      modifies slots
      ensures FirstFree(old(slots[..])) == NR_TASKS ==> pid == None && slots[..] == old(slots[..])
      ensures FirstFree(old(slots[..])) < NR_TASKS ==>
                && pid == Some(FirstFree(old(slots[..])))
                && slots[..] == Forked(old(slots[..]), p, FirstFree(old(slots[..])))
      ensures pid.Some? ==> slots[pid.value].Some? && slots[pid.value].value.ppid == p && slots[pid.value].value.state == Ready
    {
      pid := GetFree();
      if pid.Some? {
        slots[pid.value] := Some(slots[p].value.(ppid := p, state := Ready));
      }
    }

    /** Give the children of p to its parent. */
    method Reparent(p: nat)
      requires Valid() && p < NR_TASKS && slots[p].Some? && slots[p].value.ppid != p
      modifies slots
      ensures slots[..] == Reparented(old(slots[..]), p, old(slots[p].value.ppid))
    {
      ghost var before: Table := slots[..];
      ghost var to := slots[p].value.ppid;
      var i := 2;
      while i < NR_TASKS
        invariant 2 <= i <= NR_TASKS
        invariant forall j: nat | j < NR_TASKS :: slots[j] == if j < i then ReparentedSlot(before, p, to, j) else before[j]
      {
        if slots[i].Some? && slots[i].value.ppid == p {
          slots[i] := Some(slots[i].value.(ppid := slots[p].value.ppid));
        }
        i := i + 1;
      }
    }

    /** The first half of exit. */
    method BeginExit(p: nat, status: int)
      requires Valid() && p < NR_TASKS && slots[p].Some?
      modifies slots
      ensures slots[..] == Dead(old(slots[..]), p, status)
    {
      slots[p] := Some(slots[p].value.(state := Died, status := status));
    }

    /** Sleeping for the disk writes the condition, also that of a process inside its exit. */
    method Block(t: nat)
      requires Valid() && t < NR_TASKS && slots[t].Some?
      modifies slots
      ensures slots[..] == WithCondition(old(slots[..]), t, Blocked)
    {
      slots[t] := Some(slots[t].value.(state := Blocked));
    }

    method Unblock(t: nat)
      requires Valid() && t < NR_TASKS && slots[t].Some?
      modifies slots
      ensures slots[..] == WithCondition(old(slots[..]), t, Ready)
    {
      slots[t] := Some(slots[t].value.(state := Ready));
    }

    /** The second half of exit: hand over the children and wake the parent if it waits. */
    method EndExit(p: nat)
      requires Valid() && p < NR_TASKS && slots[p].Some? && slots[p].value.ppid != p && slots[p].value.ppid < NR_TASKS
      requires slots[slots[p].value.ppid].Some?
      modifies slots
      ensures slots[..] == Ended(old(slots[..]), p)
    {
      Reparent(p);
      var parent := slots[p].value.ppid;
      if slots[parent].value.state == Waiting && (slots[parent].value.waitpid == -1 || slots[parent].value.waitpid == p) {
        Unblock(parent);
      }
    }

    /** exit by a process whose closes do not sleep. */
    method Exit(p: nat, status: int)
      requires Valid() && p < NR_TASKS && slots[p].Some? && slots[p].value.ppid != p && slots[p].value.ppid < NR_TASKS
      requires slots[slots[p].value.ppid].Some?
      modifies slots
      ensures slots[..] == Exited(old(slots[..]), p, status)
    {
      BeginExit(p, status);
      EndExit(p);
    }

    /** exit up to the first sleep in its closes. */
    method ExitUntilSleep(p: nat, status: int)
      requires Valid() && p < NR_TASKS && slots[p].Some?
      modifies slots
      ensures slots[..] == WithCondition(Dead(old(slots[..]), p, status), p, Blocked)
    {
      BeginExit(p, status);
      Block(p);
    }

    /** One look of waitpid through the table: reap, go to sleep, or report that there is no such child. */
    method Wait(t: nat, want: int) returns (o: Outcome)
      requires Valid() && t < NR_TASKS && slots[t].Some?
      modifies slots
      ensures Finds(old(slots[..]), t, want, o)
      ensures slots[..] == Waited(old(slots[..]), t, want, o)
      ensures match o
              case Reaped(c, status) =>
                && 2 <= c < NR_TASKS && (want == -1 || want == c) && slots[c].None?
                && old(slots[c].Some? && slots[c].value.ppid == t && slots[c].value.state == Died && slots[c].value.status == status)
              case Sleeps => slots[t].Some? && slots[t].value.state == Waiting && slots[t].value.waitpid == want
              case NoChild => slots[..] == old(slots[..])
    {
      ghost var table: Table := slots[..];
      var hasChild := false;
      var i: nat := 2;
      while i < NR_TASKS
        invariant 2 <= i <= NR_TASKS && slots[..] == table
        invariant forall j | 0 <= j < i :: !DeadChild(table, t, want, j)
        invariant hasChild <==> exists j: nat :: j < i && Child(table, t, want, j)
      {
        if slots[i].Some? && slots[i].value.ppid == t && (want == i || want == -1) {
          assert Child(table, t, want, i);
          if slots[i].value.state == Died {
            o := Reaped(i, slots[i].value.status);
            slots[i] := None;
            return;
          }
          hasChild := true;
        }
        i := i + 1;
      }
      if hasChild {
        slots[t] := Some(slots[t].value.(state := Waiting, waitpid := want));
        return Sleeps;
      }
      return NoChild;
    }
  }
}
