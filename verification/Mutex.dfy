/** The lock's fields changed in place, one uninterrupted piece of mutex.c at a time. */
module Mutex {
  import opened Locks
  import opened Options

  class Lock {
    var value: bool
    /** The wait list, front first: tasks are pushed at the front and woken from the back. */
    var waiters: seq<nat>
    var holder: Option<nat>
    var repeat: nat
    /** Where each task stands, and what it has acquired. */
    ghost var places: map<nat, Place>
    ghost var depths: map<nat, nat>

    ghost function St(): State
      reads this
    {
      State(value, waiters, holder, repeat, places, depths)
    }

    ghost predicate Valid()
      reads this
    {
      Inv(St())
    }

    constructor ()
      ensures Valid() && St() == INITIAL
    {
      value, waiters, holder, repeat := false, [], None, 0;
      places, depths := map[], map[];
      new;
      InitialInv();
    }

    /** The test at the start of lock_acquire. */
    method BeginAcquire(t: nat) returns (deeper: bool)
      requires Valid() && At(St(), t).Outside?
      modifies this
      ensures Valid() && St() == Acquire(old(St()), t) && (deeper <==> old(Depth(St(), t)) > 0)
    {
      AcquireKeeps(St(), t);
      assert Agrees(St(), t);
      deeper := holder == Some(t);
      if deeper {
        depths := depths[t := Depth(St(), t) + 1];
        repeat := repeat + 1;
      } else {
        places := places[t := Locking(false)];
      }
    }

    /** One turn of mutex_lock's loop: take the mutex, or go to sleep. */
    method TryMutex(t: nat) returns (taken: bool)
      requires Valid() && At(St(), t).Locking?
      modifies this
      ensures Valid() && St() == Attempt(old(St()), t) && taken == !old(value)
    {
      AttemptKeeps(St(), t);
      taken := !value;
      if value {
        waiters := [t] + waiters;
        places := places[t := Asleep];
      } else {
        value := true;
        places := places[t := Taken];
      }
    }

    /** The rest of lock_acquire after mutex_lock, when nobody interrupts it. */
    method FinishAcquire(t: nat)
      requires Valid() && At(St(), t).Taken?
      modifies this
      ensures Valid() && St() == SetRepeat(SetHolder(old(St()), t), t)
      ensures holder == Some(t) && repeat == Depth(St(), t) == 1
    {
      SetHolderKeeps(St(), t);
      SetRepeatKeeps(SetHolder(St(), t), t);
      holder := Some(t);
      places := places[t := Marked];
      AssertionsHold(St(), t);
      assert repeat == 0;
      repeat := 1;
      places := places[t := Outside];
      depths := depths[t := 1];
    }

    /** lock_release up to mutex_unlock, which follows if the last level was released. */
    method BeginRelease(t: nat) returns (last: bool)
      requires Valid() && At(St(), t).Outside? && Depth(St(), t) > 0
      modifies this
      ensures Valid() && last == (old(Depth(St(), t)) == 1) && Depth(St(), t) == old(Depth(St(), t)) - 1
      ensures St() == if last then ClearRepeat(Release(old(St()), t), t) else Release(old(St()), t)
    {
      AssertionsHold(St(), t);
      assert Agrees(St(), t);
      assert holder == Some(t);
      ReleaseKeeps(St(), t);
      last := repeat == 1;
      if repeat > 1 {
        depths := depths[t := Depth(St(), t) - 1];
        repeat := repeat - 1;
        return;
      }
      ClearRepeatKeeps(Release(St(), t), t);
      holder := None;
      repeat := 0;
      places := places[t := Unmarked][t := Cleared];
      depths := depths[t := 0];
    }

    /** mutex_unlock: whoever is at the back of the wait list is woken, if anybody is. */
    method UnlockMutex(t: nat) returns (woken: Option<nat>)
      requires Valid() && At(St(), t).Cleared?
      modifies this
      ensures Valid() && St() == Unlock(old(St()), t)
      ensures woken.None? <==> old(waiters) == []
      ensures woken.Some? ==> woken.value == old(waiters[|waiters| - 1]) && At(St(), woken.value) == Locking(true)
    {
      AssertionsHold(St(), t);
      assert value;
      UnlockKeeps(St(), t);
      value := false;
      places := places[t := Outside];
      woken := None;
      if waiters != [] {
        var w := waiters[|waiters| - 1];
        waiters := waiters[..|waiters| - 1];
        places := places[w := Locking(true)];
        woken := Some(w);
      }
    }
  }
}
