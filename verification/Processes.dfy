/** Fork, exit and waitpid over a task table whose slots are reused. */
module Processes {
  import opened Limits
  import opened Options

  /** Ready stands for running or ready; Blocked for every sleep other than waitpid's. */
  datatype Condition = Ready | Blocked | Waiting | Died

  datatype Task = Task(ppid: nat, state: Condition, waitpid: int, status: int)

  type Table = t: seq<Option<Task>> | |t| == NR_TASKS witness seq(NR_TASKS, _ => None)

  // ---------- the steps on the table ----------

  function FirstFree(table: seq<Option<Task>>): (k: nat)
    ensures k <= |table|
    ensures forall i | 0 <= i < k :: table[i].Some?
    ensures k < |table| ==> table[k].None?
  {
    if table == [] || table[0].None? then 0 else 1 + FirstFree(table[1..])
  }

  /** The child is a copy of task p in slot k. */
  function Forked(table: Table, p: nat, k: nat): Table
    requires p < NR_TASKS && k < NR_TASKS && table[p].Some?
  {
    table[k := Some(table[p].value.(ppid := p, state := Ready))]
  }

  function ReparentedSlot(table: Table, p: nat, to: nat, i: nat): Option<Task>
    requires i < NR_TASKS
  {
    if i >= 2 && table[i].Some? && table[i].value.ppid == p then Some(table[i].value.(ppid := to)) else table[i]
  }

  /** The children of p become the children of task to. */
  function Reparented(table: Table, p: nat, to: nat): (t: Table)
    ensures forall i | 0 <= i < NR_TASKS :: t[i] == ReparentedSlot(table, p, to, i)
  {
    seq(NR_TASKS, i requires 0 <= i < NR_TASKS => ReparentedSlot(table, p, to, i))
  }

  /** Task t sleeps in waitpid and accepts child i. */
  predicate Awaits(t: Option<Task>, i: nat) {
    t.Some? && t.value.state == Waiting && (t.value.waitpid == -1 || t.value.waitpid == i)
  }

  function Dead(table: Table, p: nat, status: int): Table
    requires p < NR_TASKS && table[p].Some?
  {
    table[p := Some(table[p].value.(state := Died, status := status))]
  }

  /** The end of exit: the children of p go to its parent, and the parent is woken if it waits for p. */
  function Ended(table: Table, p: nat): Table
    requires p < NR_TASKS && table[p].Some? && table[p].value.ppid < NR_TASKS
  {
    var parent := table[p].value.ppid;
    var t := Reparented(table, p, parent);
    if Awaits(t[parent], p) then t[parent := Some(t[parent].value.(state := Ready))] else t
  }

  /** An exit that does not sleep between its two halves. */
  function Exited(table: Table, p: nat, status: int): Table
    requires p < NR_TASKS && table[p].Some? && table[p].value.ppid < NR_TASKS
  {
    Ended(Dead(table, p, status), p)
  }

  /** Going to sleep, or waking up, writes the condition whatever it was. */
  function WithCondition(table: Table, t: nat, c: Condition): Table
    requires t < NR_TASKS && table[t].Some?
  {
    table[t := Some(table[t].value.(state := c))]
  }

  /** Slot i holds a child of t that waitpid(want) accepts. */
  predicate Child(table: Table, t: nat, want: int, i: nat) {
    2 <= i < NR_TASKS && table[i].Some? && table[i].value.ppid == t && (want == -1 || want == i)
  }

  predicate DeadChild(table: Table, t: nat, want: int, i: nat) {
    Child(table, t, want, i) && table[i].value.state == Died
  }

  datatype Outcome = Reaped(pid: nat, status: int) | Sleeps | NoChild

  /** What waitpid finds: the first dead child, or a live one to wait for, or none. */
  ghost predicate Finds(table: Table, t: nat, want: int, o: Outcome) {
    match o
    case Reaped(c, status) =>
      && DeadChild(table, t, want, c) && status == table[c].value.status
      && forall i | 0 <= i < c :: !DeadChild(table, t, want, i)
    case Sleeps =>
      (forall i :: !DeadChild(table, t, want, i)) && exists i :: Child(table, t, want, i)
    case NoChild =>
      forall i :: !Child(table, t, want, i)
  }

  function Waited(table: Table, t: nat, want: int, o: Outcome): Table
    requires t < NR_TASKS && table[t].Some? && (o.Reaped? ==> o.pid < NR_TASKS)
  {
    match o
    case Reaped(c, _) => table[c := None]
    case Sleeps => table[t := Some(table[t].value.(state := Waiting, waitpid := want))]
    case NoChild => table
  }

  // ---------- whole systems ----------

  /** births numbers the tenant of each slot in order of creation; leaving are the tasks whose exit has slept and goes
      on, undead those whose exit has ended after a sleep; woken are the tasks that exit woke and that have not looked
      for their child yet, misled those of them that a slept exit woke; exits and delivered record statuses by birth. */
  datatype State = State(table: Table, births: seq<nat>, born: nat, leaving: set<nat>, undead: set<nat>,
                         woken: set<nat>, misled: set<nat>, exits: map<nat, int>, delivered: set<nat>)

  /** idle, init and test, all created by nobody. */
  const FIRST_TASK := Task(0, Ready, 0, 0)

  function BootTable(): Table {
    seq(NR_TASKS, i requires 0 <= i < NR_TASKS => if i < 3 then Some(FIRST_TASK) else None)
  }

  function Boot(): State {
    State(BootTable(), seq(NR_TASKS, i => i), 3, {}, {}, {}, {}, map[], {})
  }

  /** Exit is an exit that does not sleep; one that does is ExitSleep, then Wake, more sleeps, and ExitEnd. */
  datatype Event =
    | Fork(p: nat)
    | Exit(p: nat, status: int)
    | ExitSleep(p: nat, status: int)
    | ExitEnd(p: nat)
    | Wait(t: nat, want: int, o: Outcome)
    | Sleep(t: nat)
    | Wake(t: nat)

  predicate Runnable(s: State, t: nat) {
    t < NR_TASKS && s.table[t].Some? && s.table[t].value.state == Ready
  }

  /** Task t has begun to exit and slept since. */
  predicate Slept(s: State, t: nat) {
    t in s.leaving || t in s.undead
  }

  /** Task t runs and can make a system call. */
  predicate Calls(s: State, t: nat) {
    Runnable(s, t) && !Slept(s, t)
  }

  function AfterFork(s: State, p: nat): State
    requires Runnable(s, p) && |s.births| == NR_TASKS && FirstFree(s.table) < NR_TASKS
  {
    var k := FirstFree(s.table);
    s.(table := Forked(s.table, p, k), births := s.births[k := s.born], born := s.born + 1)
  }

  function AfterExit(s: State, p: nat, status: int): State
    requires Runnable(s, p) && |s.births| == NR_TASKS && s.table[p].value.ppid < NR_TASKS
  {
    var parent := s.table[p].value.ppid;
    s.(table := Exited(s.table, p, status), exits := s.exits[s.births[p] := status],
       woken := if Awaits(s.table[parent], p) then s.woken + {parent} else s.woken)
  }

  /** The condition Died lasts until the process sleeps. */
  function AfterExitSleep(s: State, p: nat, status: int): State
    requires Runnable(s, p) && |s.births| == NR_TASKS
  {
    s.(table := WithCondition(Dead(s.table, p, status), p, Blocked), exits := s.exits[s.births[p] := status],
       leaving := s.leaving + {p})
  }

  /** When the rest of the exit runs the process counts as running; the last schedule makes it ready. */
  function AfterExitEnd(s: State, p: nat): State
    requires Runnable(s, p) && s.table[p].value.ppid < NR_TASKS
  {
    var parent := s.table[p].value.ppid;
    var wakes := if Awaits(s.table[parent], p) then {parent} else {};
    s.(table := Ended(s.table, p), leaving := s.leaving - {p}, undead := s.undead + {p},
       woken := s.woken + wakes, misled := s.misled + wakes)
  }

  function AfterWait(s: State, t: nat, want: int, o: Outcome): State
    requires Runnable(s, t) && |s.births| == NR_TASKS && (o.Reaped? ==> o.pid < NR_TASKS)
  {
    s.(table := Waited(s.table, t, want, o), woken := s.woken - {t}, misled := s.misled - {t},
       delivered := if o.Reaped? then s.delivered + {s.births[o.pid]} else s.delivered)
  }

  /** A woken task resumes inside waitpid, so it can do nothing but look again; idle makes no system calls; what a task
      does when it is scheduled after an exit that slept is not said. */
  ghost predicate Step(s: State, e: Event, s': State) {
    |s.births| == NR_TASKS &&
    match e
    case Fork(p) => Calls(s, p) && p !in s.woken && FirstFree(s.table) < NR_TASKS && s' == AfterFork(s, p)
    case Exit(p, status) =>
      p != 0 && Calls(s, p) && p !in s.woken && s.table[p].value.ppid < NR_TASKS && s' == AfterExit(s, p, status)
    case ExitSleep(p, status) =>
      p != 0 && Calls(s, p) && p !in s.woken && s' == AfterExitSleep(s, p, status)
    case ExitEnd(p) =>
      p in s.leaving && Runnable(s, p) && s.table[p].value.ppid < NR_TASKS && s' == AfterExitEnd(s, p)
    case Wait(t, want, o) =>
      && t != 0 && Calls(s, t) && (t in s.woken ==> want == s.table[t].value.waitpid)
      && Finds(s.table, t, want, o) && s' == AfterWait(s, t, want, o)
    case Sleep(t) =>
      t != 0 && Runnable(s, t) && t !in s.woken && t !in s.undead && s' == s.(table := WithCondition(s.table, t, Blocked))
    case Wake(t) =>
      t < NR_TASKS && s.table[t].Some? && s.table[t].value.state == Blocked && s' == s.(table := WithCondition(s.table, t, Ready))
  }

  // ---------- what every step keeps ----------

  /** The parent of task i is in the table, not dead, and older. */
  ghost predicate ParentAlive(s: State, i: nat)
    requires i < NR_TASKS && |s.births| == NR_TASKS
  {
    s.table[i].Some? ==>
      var p := s.table[i].value.ppid;
      && p < NR_TASKS && s.table[p].Some? && s.table[p].value.state != Died
      && (i != 0 ==> s.births[p] < s.births[i])
  }

  /** A task asleep in waitpid has a child it accepts, and none of those is dead. */
  ghost predicate WaitsForLive(table: Table, i: nat)
    requires i < NR_TASKS
  {
    table[i].Some? && table[i].value.state == Waiting ==>
      && (exists c :: Child(table, i, table[i].value.waitpid, c))
      && (forall c :: !DeadChild(table, i, table[i].value.waitpid, c))
  }

  /** A task woken from waitpid by an exit that did not sleep has a dead child it accepts. */
  ghost predicate WokenForDead(table: Table, i: nat)
  {
    && i < NR_TASKS && table[i].Some? && table[i].value.state == Ready
    && exists c :: DeadChild(table, i, table[i].value.waitpid, c)
  }

  /** A task woken by an exit that slept has a child it accepts. */
  ghost predicate WokenInVain(table: Table, i: nat)
  {
    && i < NR_TASKS && table[i].Some? && table[i].value.state == Ready
    && exists c :: Child(table, i, table[i].value.waitpid, c)
  }

  /** The first two tasks stay where they are; the first never sleeps in waitpid and never dies. */
  ghost predicate Roots(table: Table) {
    && table[0].Some? && table[0].value.ppid == 0 && table[0].value.state == Ready
    && table[1].Some? && table[1].value.ppid == 0
  }

  ghost predicate Zombie(s: State, i: nat)
    requires i < NR_TASKS
  {
    s.table[i].Some? && s.table[i].value.state == Died
  }

  /** A task has an exit status exactly when it is dead or its exit has slept; a dead task's is in the table. */
  ghost predicate StatusKept(s: State, i: nat)
    requires i < NR_TASKS && |s.births| == NR_TASKS
  {
    && (s.table[i].Some? ==> s.births[i] < s.born && s.births[i] !in s.delivered)
    && (s.table[i].Some? ==> (Zombie(s, i) || Slept(s, i) <==> s.births[i] in s.exits))
    && (Zombie(s, i) ==> s.exits[s.births[i]] == s.table[i].value.status)
  }

  /** A task whose exit has slept is in its slot, not dead and not inside waitpid; after its exit it is ready. */
  ghost predicate SleptStays(s: State, i: nat) {
    && 0 < i < NR_TASKS && s.table[i].Some? && i !in s.woken
    && s.table[i].value.state in {Ready, Blocked}
    && (i in s.undead ==> i !in s.leaving && s.table[i].value.state == Ready)
  }

  ghost predicate BirthsDiffer(s: State)
    requires |s.births| == NR_TASKS
  {
    forall i, j | 0 <= i < j < NR_TASKS && s.table[i].Some? && s.table[j].Some? :: s.births[i] != s.births[j]
  }

  /** Every exit is of a task in the table, or its status was delivered. */
  ghost predicate StatusesAccounted(s: State)
    requires |s.births| == NR_TASKS
  {
    && (forall b: nat | b in s.delivered :: b in s.exits)
    && (forall b: nat | b in s.exits :: b < s.born)
    && (forall b: nat | b in s.exits && b !in s.delivered :: exists i :: HasExited(s, i, b))
  }

  /** The task of birth b is in slot i and has an exit status. */
  ghost predicate HasExited(s: State, i: nat, b: nat)
    requires |s.births| == NR_TASKS
  {
    i < NR_TASKS && s.table[i].Some? && s.births[i] == b && (Zombie(s, i) || Slept(s, i))
  }

  ghost predicate Family(s: State)
    requires |s.births| == NR_TASKS
  {
    Roots(s.table) && forall i: nat | i < NR_TASKS :: ParentAlive(s, i)
  }

  ghost predicate Waits(s: State) {
    && (forall i: nat | i < NR_TASKS :: WaitsForLive(s.table, i))
    && s.misled <= s.woken
    && (forall i: nat | i in s.woken && i !in s.misled :: WokenForDead(s.table, i))
    && (forall i: nat | i in s.misled :: WokenInVain(s.table, i))
  }

  ghost predicate Statuses(s: State)
    requires |s.births| == NR_TASKS
  {
    BirthsDiffer(s) && StatusesAccounted(s)
    && (forall i: nat | i < NR_TASKS :: StatusKept(s, i)) && (forall i: nat | Slept(s, i) :: SleptStays(s, i))
  }

  ghost predicate Inv(s: State) {
    |s.births| == NR_TASKS && Family(s) && Waits(s) && Statuses(s)
  }

  // ---------- steps that leave a task alone ----------

  /** If task i sleeps in waitpid or was woken from it, it and its children look the same. */
  ghost predicate Unmoved(s: State, s': State, i: nat)
    requires i < NR_TASKS
  {
    i in s.woken || (s.table[i].Some? && s.table[i].value.state == Waiting)
    || (s'.table[i].Some? && s'.table[i].value.state == Waiting) ==>
      && s'.table[i] == s.table[i]
      && (forall want, c :: Child(s'.table, i, want, c) == Child(s.table, i, want, c))
      && (forall want, c :: DeadChild(s'.table, i, want, c) == DeadChild(s.table, i, want, c))
  }

  lemma WaitsSame(s: State, s': State, t: nat)
    requires Waits(s) && t < NR_TASKS && s'.woken == s.woken - {t} && s'.misled == s.misled - {t}
    requires forall i: nat | i < NR_TASKS && i != t :: Unmoved(s, s', i)
    requires WaitsForLive(s'.table, t)
    ensures Waits(s')
  {
    forall i: nat | i < NR_TASKS
      ensures WaitsForLive(s'.table, i)
    {
      assert WaitsForLive(s.table, i) && (i != t ==> Unmoved(s, s', i));
      if i != t && s'.table[i].Some? && s'.table[i].value.state == Waiting {
        var c :| Child(s.table, i, s.table[i].value.waitpid, c);
        assert Child(s'.table, i, s.table[i].value.waitpid, c);
      }
    }
    forall i: nat | i in s'.woken && i !in s'.misled
      ensures WokenForDead(s'.table, i)
    {
      assert WokenForDead(s.table, i) && Unmoved(s, s', i);
      var c :| DeadChild(s.table, i, s.table[i].value.waitpid, c);
      assert DeadChild(s'.table, i, s.table[i].value.waitpid, c);
    }
    forall i: nat | i in s'.misled
      ensures WokenInVain(s'.table, i)
    {
      assert WokenInVain(s.table, i) && Unmoved(s, s', i);
      var c :| Child(s.table, i, s.table[i].value.waitpid, c);
      assert Child(s'.table, i, s.table[i].value.waitpid, c);
    }
  }

  lemma StatusesSame(s: State, s': State)
    requires |s.births| == NR_TASKS && Statuses(s)
    requires s'.births == s.births && s'.born == s.born && s'.exits == s.exits && s'.delivered == s.delivered
    requires forall i: nat :: Slept(s', i) == Slept(s, i)
    requires forall i: nat | i < NR_TASKS :: s'.table[i].Some? == s.table[i].Some? && Zombie(s', i) == Zombie(s, i)
    requires forall i: nat | i < NR_TASKS && Zombie(s, i) :: s'.table[i].value.status == s.table[i].value.status
    requires forall i: nat | Slept(s', i) :: SleptStays(s', i)
    ensures Statuses(s')
  {
    forall i: nat | i < NR_TASKS
      ensures StatusKept(s', i)
    {
      assert StatusKept(s, i);
    }
    forall b: nat | b in s'.exits && b !in s'.delivered
      ensures exists i :: HasExited(s', i, b)
    {
      var i :| HasExited(s, i, b);
      assert HasExited(s', i, b);
    }
  }

  // ---------- fork ----------

  lemma ForkFamily(s: State, p: nat)
    requires Inv(s) && Runnable(s, p) && FirstFree(s.table) < NR_TASKS
    ensures Family(AfterFork(s, p))
  {
    hide Waits, BirthsDiffer, StatusesAccounted;
    var k, s' := FirstFree(s.table), AfterFork(s, p);
    assert StatusKept(s, p);
    forall i: nat | i < NR_TASKS
      ensures ParentAlive(s', i)
    {
      assert ParentAlive(s, i);
    }
  }

  lemma ForkWaits(s: State, p: nat)
    requires Inv(s) && Runnable(s, p) && p !in s.woken && FirstFree(s.table) < NR_TASKS
    ensures Waits(AfterFork(s, p))
  {
    hide Statuses, Family;
    var s' := AfterFork(s, p);
    forall i: nat | i in s.woken
      ensures i < NR_TASKS && s.table[i].Some?
    {
      assert i in s.misled || WokenForDead(s.table, i);
    }
    WaitsSame(s, s', p);
  }

  lemma ForkStatuses(s: State, p: nat)
    requires Inv(s) && Runnable(s, p) && FirstFree(s.table) < NR_TASKS
    ensures Statuses(AfterFork(s, p))
  {
    hide Waits, Family;
    var k, s' := FirstFree(s.table), AfterFork(s, p);
    assert Slept(s, k) ==> SleptStays(s, k);
    forall i: nat | i < NR_TASKS
      ensures StatusKept(s', i)
    {
      assert StatusKept(s, i);
    }
    forall i, j | 0 <= i < j < NR_TASKS && s'.table[i].Some? && s'.table[j].Some?
      ensures s'.births[i] != s'.births[j]
    {
      assert StatusKept(s, i) && StatusKept(s, j);
    }
    forall i: nat | Slept(s', i)
      ensures SleptStays(s', i)
    {
      assert Slept(s, i) ==> SleptStays(s, i);
    }
    forall b: nat | b in s'.exits && b !in s'.delivered
      ensures exists i :: HasExited(s', i, b)
    {
      var i :| HasExited(s, i, b);
      assert HasExited(s', i, b);
    }
  }

  // ---------- exit ----------

  /** However p leaves, its children end with its parent, which is alive and older. */
  lemma EndFamily(s: State, p: nat, v: Task, s': State)
    requires Inv(s) && 0 < p < NR_TASKS && s.table[p].Some? && v.ppid == s.table[p].value.ppid < NR_TASKS
    requires s'.births == s.births && s'.table == Ended(s.table[p := Some(v)], p)
    ensures Family(s')
  {
    hide Waits, Statuses;
    assert ParentAlive(s, p);
    forall i: nat | i < NR_TASKS
      ensures ParentAlive(s', i)
    {
      assert ParentAlive(s, i);
    }
  }

  /** However p leaves, whoever goes on waiting still waits for a live child. */
  lemma EndWaitsForLive(s: State, p: nat, v: Task, i: nat)
    requires Inv(s) && Runnable(s, p) && p != 0 && p !in s.woken && i < NR_TASKS
    requires v.ppid == s.table[p].value.ppid < NR_TASKS && v.state != Waiting
    ensures WaitsForLive(Ended(s.table[p := Some(v)], p), i)
  {
    hide Statuses;
    assert ParentAlive(s, p) && WaitsForLive(s.table, i);
    var table' := Ended(s.table[p := Some(v)], p);
    if table'[i].Some? && table'[i].value.state == Waiting {
      var want := table'[i].value.waitpid;
      var c :| Child(s.table, i, want, c);
      assert Child(table', i, want, c);
      forall d
        ensures !DeadChild(table', i, want, d)
      {
        assert !DeadChild(s.table, i, want, d);
      }
    }
  }

  /** Those woken before are as they were. */
  lemma EndWoken(s: State, p: nat, v: Task, i: nat)
    requires Inv(s) && Runnable(s, p) && p != 0 && p !in s.woken && i in s.woken
    requires v.ppid == s.table[p].value.ppid < NR_TASKS
    ensures i !in s.misled ==> WokenForDead(Ended(s.table[p := Some(v)], p), i)
    ensures WokenInVain(Ended(s.table[p := Some(v)], p), i)
  {
    hide Statuses, Family;
    var table' := Ended(s.table[p := Some(v)], p);
    if i in s.misled {
      var c :| Child(s.table, i, s.table[i].value.waitpid, c);
      assert Child(table', i, s.table[i].value.waitpid, c);
    } else {
      assert WokenForDead(s.table, i);
      var c :| DeadChild(s.table, i, s.table[i].value.waitpid, c);
      assert DeadChild(table', i, s.table[i].value.waitpid, c) && Child(table', i, s.table[i].value.waitpid, c);
    }
  }

  lemma ExitWaits(s: State, p: nat, status: int)
    requires Inv(s) && p != 0 && Runnable(s, p) && p !in s.woken && s.table[p].value.ppid < NR_TASKS
    ensures Waits(AfterExit(s, p, status))
  {
    hide Statuses;
    assert ParentAlive(s, p);
    var parent, s', v := s.table[p].value.ppid, AfterExit(s, p, status), Dead(s.table, p, status)[p].value;
    forall i: nat | i < NR_TASKS
      ensures WaitsForLive(s'.table, i)
    {
      EndWaitsForLive(s, p, v, i);
    }
    forall i: nat | i in s.woken
      ensures WokenInVain(s'.table, i) && (i !in s.misled ==> WokenForDead(s'.table, i))
    {
      EndWoken(s, p, v, i);
    }
    if Awaits(s.table[parent], p) {
      assert DeadChild(s'.table, parent, s.table[parent].value.waitpid, p);
    }
  }

  lemma ExitStatuses(s: State, p: nat, status: int)
    requires Inv(s) && p != 0 && Calls(s, p) && s.table[p].value.ppid < NR_TASKS
    ensures Statuses(AfterExit(s, p, status))
  {
    hide Waits;
    var s' := AfterExit(s, p, status);
    assert ParentAlive(s, p) && StatusKept(s, p);
    forall i: nat | i < NR_TASKS
      ensures StatusKept(s', i)
    {
      assert StatusKept(s, i);
    }
    forall i: nat | Slept(s', i)
      ensures SleptStays(s', i)
    {
      assert Slept(s, i) ==> SleptStays(s, i);
    }
    forall b: nat | b in s'.exits && b !in s'.delivered
      ensures exists i :: HasExited(s', i, b)
    {
      if b == s.births[p] {
        assert HasExited(s', p, b);
      } else {
        var i :| HasExited(s, i, b);
        assert HasExited(s', i, b);
      }
    }
  }

  lemma ExitSleepStatuses(s: State, p: nat, status: int)
    requires Inv(s) && p != 0 && Calls(s, p) && p !in s.woken
    ensures Statuses(AfterExitSleep(s, p, status))
  {
    hide Waits, Family;
    var s' := AfterExitSleep(s, p, status);
    assert StatusKept(s, p);
    forall i: nat | i < NR_TASKS
      ensures StatusKept(s', i)
    {
      assert StatusKept(s, i);
    }
    forall i: nat | Slept(s', i)
      ensures SleptStays(s', i)
    {
      assert Slept(s, i) ==> SleptStays(s, i);
    }
    forall b: nat | b in s'.exits && b !in s'.delivered
      ensures exists i :: HasExited(s', i, b)
    {
      if b == s.births[p] {
        assert HasExited(s', p, b);
      } else {
        var i :| HasExited(s, i, b);
        assert HasExited(s', i, b);
      }
    }
  }

  lemma ExitEndWaits(s: State, p: nat)
    requires Inv(s) && p in s.leaving && Runnable(s, p) && s.table[p].value.ppid < NR_TASKS
    ensures Waits(AfterExitEnd(s, p))
  {
    hide BirthsDiffer, StatusesAccounted, StatusKept;
    assert ParentAlive(s, p) && SleptStays(s, p);
    var parent, s', v := s.table[p].value.ppid, AfterExitEnd(s, p), s.table[p].value;
    assert s.table[p := Some(v)] == s.table;
    forall i: nat | i < NR_TASKS
      ensures WaitsForLive(s'.table, i)
    {
      EndWaitsForLive(s, p, v, i);
    }
    forall i: nat | i in s.woken
      ensures WokenInVain(s'.table, i) && (i !in s.misled ==> WokenForDead(s'.table, i))
    {
      EndWoken(s, p, v, i);
    }
    if Awaits(s.table[parent], p) {
      assert Child(s'.table, parent, s.table[parent].value.waitpid, p);
    }
  }

  lemma ExitEndStatuses(s: State, p: nat)
    requires Inv(s) && p in s.leaving && Runnable(s, p) && s.table[p].value.ppid < NR_TASKS
    ensures Statuses(AfterExitEnd(s, p))
  {
    hide Family, BirthsDiffer, StatusesAccounted, StatusKept;
    var s' := AfterExitEnd(s, p);
    assert SleptStays(s, p);
    forall i: nat | Slept(s', i)
      ensures Slept(s, i) && SleptStays(s', i)
    {
      assert SleptStays(s, i);
    }
    StatusesSame(s, AfterExitEnd(s, p));
  }

  // ---------- waitpid ----------

  lemma ReapFamily(s: State, t: nat, want: int, c: nat, status: int)
    requires Inv(s) && t != 0 && Runnable(s, t) && Finds(s.table, t, want, Reaped(c, status))
    ensures Family(AfterWait(s, t, want, Reaped(c, status)))
  {
    hide Waits, Statuses;
    var s' := AfterWait(s, t, want, Reaped(c, status));
    forall i: nat | i < NR_TASKS
      ensures ParentAlive(s', i)
    {
      assert ParentAlive(s, i);
    }
  }

  lemma ReapWaits(s: State, t: nat, want: int, c: nat, status: int)
    requires Inv(s) && t != 0 && Runnable(s, t) && Finds(s.table, t, want, Reaped(c, status))
    ensures Waits(AfterWait(s, t, want, Reaped(c, status)))
  {
    hide Statuses, Family;
    var s' := AfterWait(s, t, want, Reaped(c, status));
    assert c !in s.woken by {
      assert c in s.woken ==> WokenForDead(s.table, c) || c in s.misled;
    }
    WaitsSame(s, s', t);
  }

  lemma ReapStatuses(s: State, t: nat, want: int, c: nat, status: int)
    requires Inv(s) && t != 0 && Runnable(s, t) && Finds(s.table, t, want, Reaped(c, status))
    ensures Statuses(AfterWait(s, t, want, Reaped(c, status)))
  {
    hide Waits, Family;
    var s' := AfterWait(s, t, want, Reaped(c, status));
    assert StatusKept(s, c) && Zombie(s, c);
    forall i: nat | i < NR_TASKS
      ensures StatusKept(s', i)
    {
      assert StatusKept(s, i);
    }
    forall i: nat | Slept(s', i)
      ensures SleptStays(s', i)
    {
      assert Slept(s, i) ==> SleptStays(s, i);
    }
    forall b: nat | b in s'.exits && b !in s'.delivered
      ensures exists i :: HasExited(s', i, b)
    {
      var i :| HasExited(s, i, b);
      assert HasExited(s', i, b);
    }
  }

  // ---------- a change of condition only ----------

  /** Task t changes its condition without dying or coming back to life, and waitpid's rules hold where it changes. */
  lemma ConditionKeeps(s: State, s': State, t: nat, v: Task)
    requires Inv(s) && 0 < t < NR_TASKS && s.table[t].Some? && s.table[t].value.state in {Ready, Blocked}
    requires s'.table == s.table[t := Some(v)] && v.ppid == s.table[t].value.ppid && v.state != Died
    requires WaitsForLive(s'.table, t)
    requires s' == s.(table := s'.table, woken := s.woken - {t}, misled := s.misled - {t})
    requires Slept(s, t) ==> v.state in {Ready, Blocked} && (t in s.undead ==> v.state == Ready)
    ensures Inv(s')
  {
    assert Family(s') by {
      hide Waits, Statuses;
      forall i: nat | i < NR_TASKS
        ensures ParentAlive(s', i)
      {
        assert ParentAlive(s, i);
      }
    }
    assert Waits(s') by {
      hide Family, Statuses;
      WaitsSame(s, s', t);
    }
    assert Statuses(s') by {
      hide Family, Waits, BirthsDiffer, StatusesAccounted, StatusKept;
      StatusesSame(s, s');
    }
  }

  /** A task that an unslept exit woke finds a dead child: it neither sleeps again nor comes back empty-handed. */
  lemma WokenReaps(s: State, t: nat, want: int, o: Outcome)
    requires Inv(s) && t in s.woken && t !in s.misled && want == s.table[t].value.waitpid && Finds(s.table, t, want, o)
    ensures o.Reaped?
  {
    assert WokenForDead(s.table, t);
    var c :| DeadChild(s.table, t, want, c);
    assert Child(s.table, t, want, c);
  }

  lemma StepKeeps(s: State, e: Event, s': State)
    requires Inv(s) && Step(s, e, s')
    ensures Inv(s')
  {
    hide Family, Waits, Statuses, Ended;
    match e {
      case Fork(p) =>
        ForkFamily(s, p);
        ForkWaits(s, p);
        ForkStatuses(s, p);
      case Exit(p, status) =>
        EndFamily(s, p, Dead(s.table, p, status)[p].value, s');
        ExitWaits(s, p, status);
        ExitStatuses(s, p, status);
      case ExitSleep(p, status) => ExitSleepKeeps(s, p, status);
      case ExitEnd(p) => ExitEndKeeps(s, p);
      case Wait(t, want, o) => WaitKeeps(s, t, want, o);
      case Sleep(t) =>
        Awake(s, t);
        ConditionKeeps(s, s', t, s'.table[t].value);
      case Wake(t) =>
        Sleeper(s, t);
        ConditionKeeps(s, s', t, s'.table[t].value);
    }
  }

  lemma ExitSleepKeeps(s: State, p: nat, status: int)
    requires Inv(s) && p != 0 && Calls(s, p) && p !in s.woken
    ensures Inv(AfterExitSleep(s, p, status))
  {
    var s' := AfterExitSleep(s, p, status);
    assert Family(s') by {
      hide Waits, Statuses;
      forall i: nat | i < NR_TASKS
        ensures ParentAlive(s', i)
      {
        assert ParentAlive(s, i);
      }
    }
    assert Waits(s') by {
      hide Family, Statuses;
      WaitsSame(s, s', p);
    }
    ExitSleepStatuses(s, p, status);
  }

  lemma ExitEndKeeps(s: State, p: nat)
    requires Inv(s) && p in s.leaving && Runnable(s, p) && s.table[p].value.ppid < NR_TASKS
    ensures Inv(AfterExitEnd(s, p))
  {
    hide Family, Waits, BirthsDiffer, StatusesAccounted, StatusKept;
    assert SleptStays(s, p);
    assert s.table[p := Some(s.table[p].value)] == s.table;
    EndFamily(s, p, s.table[p].value, AfterExitEnd(s, p));
    ExitEndWaits(s, p);
    ExitEndStatuses(s, p);
  }

  lemma Sleeper(s: State, t: nat)
    requires Inv(s) && t < NR_TASKS && s.table[t].Some? && s.table[t].value.state == Blocked
    ensures t != 0 && t !in s.woken && t !in s.misled && t !in s.undead
  {
    assert t in s.undead ==> SleptStays(s, t);
    assert t in s.woken ==> t in s.misled || WokenForDead(s.table, t);
  }

  lemma Awake(s: State, t: nat)
    requires Inv(s) && t < NR_TASKS && t !in s.woken
    ensures s.woken - {t} == s.woken && s.misled - {t} == s.misled
  {}

  lemma WaitKeeps(s: State, t: nat, want: int, o: Outcome)
    requires Inv(s) && t != 0 && Calls(s, t) && (t in s.woken ==> want == s.table[t].value.waitpid)
    requires Finds(s.table, t, want, o)
    ensures Inv(AfterWait(s, t, want, o))
  {
    hide Family, Waits, Statuses;
    var s' := AfterWait(s, t, want, o);
    match o {
      case Reaped(c, status) =>
        ReapFamily(s, t, want, c, status);
        ReapWaits(s, t, want, c, status);
        ReapStatuses(s, t, want, c, status);
      case Sleeps =>
        SleepsForLive(s, t, want);
        ConditionKeeps(s, s', t, s'.table[t].value);
      case NoChild =>
        NotWaiting(s.table, t);
        ConditionKeeps(s, s', t, s.table[t].value);
    }
  }

  lemma NotWaiting(table: Table, t: nat)
    requires t < NR_TASKS && table[t].Some? && table[t].value.state == Ready
    ensures WaitsForLive(table, t) && table[t := Some(table[t].value)] == table
  {}

  lemma SleepsForLive(s: State, t: nat, want: int)
    requires Runnable(s, t) && Finds(s.table, t, want, Sleeps)
    ensures WaitsForLive(Waited(s.table, t, want, Sleeps), t)
  {
    var table' := Waited(s.table, t, want, Sleeps);
    var c :| Child(s.table, t, want, c);
    assert Child(table', t, want, c);
    forall d
      ensures !DeadChild(table', t, want, d)
    {
      assert !DeadChild(s.table, t, want, d);
    }
  }

  // ---------- whole runs ----------

  lemma BootInv()
    ensures Inv(Boot())
  {
    forall i: nat | i < NR_TASKS
      ensures ParentAlive(Boot(), i) && WaitsForLive(Boot().table, i) && StatusKept(Boot(), i)
    {}
  }

  ghost predicate Run(ss: seq<State>, es: seq<Event>) {
    |ss| == |es| + 1 && ss[0] == Boot() && forall n | 0 <= n < |es| :: Step(ss[n], es[n], ss[n + 1])
  }

  lemma {:induction false} RunKeeps(ss: seq<State>, es: seq<Event>, n: nat)
    requires Run(ss, es) && n < |ss|
    ensures Inv(ss[n])
  {
    hide Inv, Step;
    if n > 0 {
      RunKeeps(ss, es, n - 1);
      StepKeeps(ss[n - 1], es[n - 1], ss[n]);
    } else {
      BootInv();
    }
  }

  /** What is recorded about a dead task stays as it is. */
  lemma RecordsStay(s: State, e: Event, s': State)
    requires Inv(s) && Step(s, e, s')
    ensures forall b: nat | b in s.exits :: b in s'.exits && s'.exits[b] == s.exits[b]
    ensures s.delivered <= s'.delivered
  {
    if e.Exit? || e.ExitSleep? {
      assert StatusKept(s, e.p);
    }
  }

  lemma {:induction false} RecordsStayAlong(ss: seq<State>, es: seq<Event>, m: nat, n: nat)
    requires Run(ss, es) && m <= n < |ss|
    ensures forall b: nat | b in ss[m].exits :: b in ss[n].exits && ss[n].exits[b] == ss[m].exits[b]
    ensures ss[m].delivered <= ss[n].delivered
    decreases n
  {
    hide Inv, Step;
    if m < n {
      RecordsStayAlong(ss, es, m, n - 1);
      RunKeeps(ss, es, n - 1);
      RecordsStay(ss[n - 1], es[n - 1], ss[n]);
    }
  }

  /** waitpid delivers a status that exit left, and none that was delivered before. */
  lemma ReapDelivers(s: State, t: nat, want: int, o: Outcome, s': State)
    requires Inv(s) && Step(s, Wait(t, want, o), s') && o.Reaped?
    ensures o.pid < NR_TASKS
    ensures var b := s.births[o.pid];
            b in s.exits && s.exits[b] == o.status && b !in s.delivered && b in s'.delivered
  {
    assert StatusKept(s, o.pid) && Zombie(s, o.pid);
  }

  /** What waitpid delivers is what the process gave to exit. */
  lemma DeliversStatus(ss: seq<State>, es: seq<Event>, m: nat, n: nat)
    requires Run(ss, es) && m < n < |es| && (es[m].Exit? || es[m].ExitSleep?) && es[n].Wait? && es[n].o.Reaped?
    ensures Inv(ss[m]) && Inv(ss[n]) && es[m].p < NR_TASKS && es[n].o.pid < NR_TASKS
    ensures ss[m].births[es[m].p] == ss[n].births[es[n].o.pid] ==> es[n].o.status == es[m].status
  {
    hide Family, Waits, Statuses;
    RunKeeps(ss, es, m);
    RunKeeps(ss, es, n);
    assert Step(ss[m], es[m], ss[m + 1]);
    RecordsStayAlong(ss, es, m + 1, n);
    ReapDelivers(ss[n], es[n].t, es[n].want, es[n].o, ss[n + 1]);
  }

  /** No exit status is delivered twice, however often its pid is used again. */
  lemma DeliveredOnce(ss: seq<State>, es: seq<Event>, m: nat, n: nat)
    requires Run(ss, es) && m < n < |es|
    requires es[m].Wait? && es[m].o.Reaped? && es[n].Wait? && es[n].o.Reaped?
    ensures Inv(ss[m]) && Inv(ss[n]) && es[m].o.pid < NR_TASKS && es[n].o.pid < NR_TASKS
    ensures ss[m].births[es[m].o.pid] != ss[n].births[es[n].o.pid]
  {
    hide Family, Waits, Statuses;
    RunKeeps(ss, es, m);
    RunKeeps(ss, es, n);
    ReapDelivers(ss[m], es[m].t, es[m].want, es[m].o, ss[m + 1]);
    ReapDelivers(ss[n], es[n].t, es[n].want, es[n].o, ss[n + 1]);
    RecordsStayAlong(ss, es, m + 1, n);
  }

  // ---------- what a sleep inside exit does ----------

  /** An exit status is in the table or delivered exactly when the exit has not slept. */
  lemma KeptUnlessSlept(s: State, b: nat)
    requires Inv(s) && b in s.exits
    ensures b in s.delivered || (exists i: nat :: i < NR_TASKS && Zombie(s, i) && s.births[i] == b && s.table[i].value.status == s.exits[b])
            <==> !exists i: nat :: Slept(s, i) && i < NR_TASKS && s.births[i] == b
  {
    if i: nat :| Slept(s, i) && i < NR_TASKS && s.births[i] == b {
      assert SleptStays(s, i) && StatusKept(s, i);
      forall j: nat | j < NR_TASKS && Zombie(s, j)
        ensures s.births[j] != b
      {
        assert i < j || j < i;
      }
    } else if b !in s.delivered {
      var i :| HasExited(s, i, b);
      assert Zombie(s, i) && StatusKept(s, i);
    }
  }

  /** A task comes to be one whose exit slept only by sleeping in its exit, and stays one. */
  lemma SleptBySleeping(s: State, e: Event, s': State, i: nat)
    requires Inv(s) && Step(s, e, s') && i < NR_TASKS
    ensures Slept(s', i) <==> Slept(s, i) || (e.ExitSleep? && e.p == i)
    ensures Slept(s, i) ==> s'.births[i] == s.births[i]
    ensures e.ExitSleep? && e.p == i ==> s.births[i] !in s.exits && s'.births[i] == s.births[i]
  {
    assert Slept(s, i) ==> SleptStays(s, i);
    assert StatusKept(s, i);
  }

  lemma {:induction false} SleptForGood(ss: seq<State>, es: seq<Event>, m: nat, n: nat)
    requires Run(ss, es) && m < n < |ss| && es[m].ExitSleep?
    ensures es[m].p < NR_TASKS && Slept(ss[n], es[m].p) && Inv(ss[m]) && Inv(ss[n])
    ensures ss[n].births[es[m].p] == ss[m].births[es[m].p] && ss[m].births[es[m].p] in ss[n].exits
    decreases n
  {
    hide Inv;
    RunKeeps(ss, es, n - 1);
    RunKeeps(ss, es, n);
    if m < n - 1 {
      SleptForGood(ss, es, m, n - 1);
      RecordsStayAlong(ss, es, n - 1, n);
    }
    SleptBySleeping(ss[n - 1], es[n - 1], ss[n], es[m].p);
  }

  lemma {:induction false} UnsleptForGood(ss: seq<State>, es: seq<Event>, m: nat, n: nat)
    requires Run(ss, es) && m < n < |ss| && es[m].Exit? && es[m].p < NR_TASKS && Inv(ss[m]) && Inv(ss[n])
    ensures ss[m].births[es[m].p] in ss[n].exits
    ensures !exists i: nat :: Slept(ss[n], i) && i < NR_TASKS && ss[n].births[i] == ss[m].births[es[m].p]
    decreases n
  {
    hide Family, Waits, Statuses;
    var b := ss[m].births[es[m].p];
    RunKeeps(ss, es, n - 1);
    if m < n - 1 {
      UnsleptForGood(ss, es, m, n - 1);
      RecordsStayAlong(ss, es, n - 1, n);
    } else {
      Leaver(ss[m], es[m].p, es[m].status, ss[n]);
    }
    forall i: nat | Slept(ss[n], i) && i < NR_TASKS
      ensures ss[n].births[i] != b
    {
      SleptBySleeping(ss[n - 1], es[n - 1], ss[n], i);
    }
  }

  lemma Leaver(s: State, p: nat, status: int, s': State)
    requires Inv(s) && Step(s, Exit(p, status), s')
    ensures p < NR_TASKS && forall i: nat | Slept(s, i) && i < NR_TASKS :: s.births[i] != s.births[p]
  {
    forall i: nat | Slept(s, i) && i < NR_TASKS
      ensures s.births[i] != s.births[p]
    {
      assert SleptStays(s, i) && i != p;
      assert i < p || p < i;
    }
  }

  /**
   * Over every run: the status of an exit that did not sleep is in the table until waitpid delivers it; that of an
   * exit that slept is never delivered, and its slot is never free again.
   */
  lemma ExitFate(ss: seq<State>, es: seq<Event>, m: nat, n: nat)
    requires Run(ss, es) && m < n < |ss| && (es[m].Exit? || es[m].ExitSleep?)
    ensures es[m].p < NR_TASKS && Inv(ss[m]) && Inv(ss[n])
    ensures var b := ss[m].births[es[m].p];
            b in ss[n].exits
            && (b in ss[n].delivered
                || (exists i: nat :: i < NR_TASKS && Zombie(ss[n], i) && ss[n].births[i] == b && ss[n].table[i].value.status == ss[n].exits[b])
                <==> es[m].Exit?)
    ensures es[m].ExitSleep? ==> ss[n].table[es[m].p].Some? && !Zombie(ss[n], es[m].p)
  {
    hide Family, Waits, Statuses, SleptStays;
    RunKeeps(ss, es, m);
    RunKeeps(ss, es, n);
    var p := es[m].p;
    if es[m].Exit? {
      Leaver(ss[m], p, es[m].status, ss[m + 1]);
      UnsleptForGood(ss, es, m, n);
    } else {
      SleptForGood(ss, es, m, n);
      InItsSlot(ss[n], p);
    }
    KeptUnlessSlept(ss[n], ss[m].births[p]);
  }

  lemma InItsSlot(s: State, p: nat)
    requires Inv(s) && Slept(s, p)
    ensures p < NR_TASKS && s.table[p].Some? && !Zombie(s, p)
  {
    assert SleptStays(s, p);
  }

  /**
   * The parent that the end of an exit wakes: after an exit that did not sleep it finds a dead child. After one that
   * slept it finds one exactly if it waits for any child and the process leaves it a dead child of its own.
   */
  lemma WokenFinds(s: State, e: Event, s': State)
    requires Inv(s) && Step(s, e, s') && (e.Exit? || e.ExitEnd?) && Awaits(s.table[s.table[e.p].value.ppid], e.p)
    ensures var t := s.table[e.p].value.ppid;
            var want := s.table[t].value.waitpid;
            (exists c :: DeadChild(s'.table, t, want, c))
            <==> e.Exit? || (want == -1 && exists c :: DeadChild(s.table, e.p, -1, c))
  {
    var t := s.table[e.p].value.ppid;
    var want := s.table[t].value.waitpid;
    assert WaitsForLive(s.table, t) && ParentAlive(s, e.p);
    if e.Exit? {
      assert DeadChild(s'.table, t, want, e.p);
    } else {
      assert SleptStays(s, e.p);
      forall c
        ensures DeadChild(s'.table, t, want, c) <==> DeadChild(s.table, e.p, -1, c) && want == -1
      {
        assert !DeadChild(s.table, t, want, c);
        assert c == t ==> !DeadChild(s.table, e.p, -1, c);
      }
    }
  }

  /** A parent that waits for one child by its pid never gets it if that child's exit slept. */
  lemma NeverReaped(ss: seq<State>, es: seq<Event>, m: nat, n: nat)
    requires Run(ss, es) && m < n < |es| && es[m].ExitSleep? && es[n].Wait? && es[n].o.Reaped?
    ensures es[n].o.pid != es[m].p
  {
    hide Family, Waits, Statuses, SleptStays;
    SleptForGood(ss, es, m, n);
    InItsSlot(ss[n], es[m].p);
    assert Step(ss[n], es[n], ss[n + 1]);
  }

  // ---------- a run in which an exit status is lost ----------

  /** Init forks a child and waits for it; another process waits for the disk; the child exits, queues behind it, and goes on. */
  function LostEvents(): seq<Event> {
    [Fork(1), Wait(1, -1, Sleeps), Sleep(2), ExitSleep(3, 7), Wake(2), Wake(3), ExitEnd(3), Wait(1, -1, Sleeps)]
  }

  lemma BootFree()
    ensures FirstFree(BootTable()) == 3
  {
    var t := BootTable();
    assert t[0].Some? && t[1].Some? && t[2].Some? && t[3].None?;
  }

  lemma OneChild(table: Table, t: nat, want: int, c: nat)
    requires Child(table, t, want, c) && table[c].value.state != Died
    requires forall i | 2 <= i < NR_TASKS && i != c :: table[i].Some? ==> table[i].value.ppid != t
    ensures Finds(table, t, want, Sleeps)
  {}

  /** Init waits for the child, which sleeps inside its exit with its status recorded. */
  function BothAsleep(): State {
    var table := BootTable()[1 := Some(FIRST_TASK.(state := Waiting, waitpid := -1))][2 := Some(FIRST_TASK.(state := Blocked))];
    State(table[3 := Some(Task(1, Blocked, 0, 7))], Boot().births[3 := 3], 4, {3}, {}, {}, {}, map[3 := 7], {})
  }

  /** Up to there. */
  lemma LostBegins() returns (ss: seq<State>)
    ensures |ss| == 5 && ss[0] == Boot() && forall n | 0 <= n < 4 :: Step(ss[n], LostEvents()[n], ss[n + 1])
    ensures ss[4] == BothAsleep()
  {
    BootFree();
    var s0 := Boot();
    var s1 := AfterFork(s0, 1);
    assert s1.table[3] == Some(Task(1, Ready, 0, 0));
    OneChild(s1.table, 1, -1, 3);
    var s2 := AfterWait(s1, 1, -1, Sleeps);
    var s3 := s2.(table := WithCondition(s2.table, 2, Blocked));
    var s4 := AfterExitSleep(s3, 3, 7);
    ss := [s0, s1, s2, s3, s4];
  }

  /** From there on. */
  lemma LostEnds() returns (ss: seq<State>)
    ensures |ss| == 5 && ss[0] == BothAsleep() && forall n | 0 <= n < 4 :: Step(ss[n], LostEvents()[4 + n], ss[n + 1])
    ensures ss[3].woken == {1} && ss[4].table[1] == Some(FIRST_TASK.(state := Waiting, waitpid := -1))
    ensures ss[4].exits == map[3 := 7] && ss[4].delivered == {} && forall i: nat | i < NR_TASKS :: !Zombie(ss[4], i)
  {
    var s4 := BothAsleep();
    var s5 := s4.(table := WithCondition(s4.table, 2, Ready));
    var s6 := s5.(table := WithCondition(s5.table, 3, Ready));
    var s7 := AfterExitEnd(s6, 3);
    assert s7.table[1] == Some(FIRST_TASK.(waitpid := -1)) && s7.table[3].value.ppid == 1;
    OneChild(s7.table, 1, -1, 3);
    var s8 := AfterWait(s7, 1, -1, Sleeps);
    ss := [s4, s5, s6, s7, s8];
  }

  /** The woken parent goes back to sleep; the status 7 is recorded for the child and is nowhere in the table. */
  lemma StatusLost() returns (ss: seq<State>)
    ensures Run(ss, LostEvents())
    ensures ss[7].woken == {1} && ss[8].table[1] == Some(FIRST_TASK.(state := Waiting, waitpid := -1))
    ensures ss[8].exits == map[3 := 7] && ss[8].delivered == {} && forall i: nat | i < NR_TASKS :: !Zombie(ss[8], i)
  {
    hide Step;
    var first := LostBegins();
    var rest := LostEnds();
    ss := first + rest[1..];
    forall n | 0 <= n < 8
      ensures Step(ss[n], LostEvents()[n], ss[n + 1])
    {
      if n >= 4 {
        assert ss[n] == rest[n - 4] && ss[n + 1] == rest[n - 3] && LostEvents()[n] == LostEvents()[4 + (n - 4)];
      }
    }
  }

  /** A new task in a slot used before has no children: nobody's parent is a slot that is free. */
  lemma ReusedPidHasNoChildren(s: State, p: nat, i: nat)
    requires Inv(s) && Runnable(s, p) && FirstFree(s.table) < NR_TASKS && i < NR_TASKS
    ensures var k := FirstFree(s.table);
            AfterFork(s, p).table[i].Some? ==> AfterFork(s, p).table[i].value.ppid != k
  {
    assert ParentAlive(s, i) && ParentAlive(s, p);
  }
}
