/** Descriptors, the open files they share, and the inode references the open files hold. */
module OpenFiles {
  import opened FiniteSets
  import opened Options

  const FILE_NR := 128
  const TASK_FILE_NR := 16

  type Descriptors = d: seq<Option<nat>> | |d| == TASK_FILE_NR witness seq(TASK_FILE_NR, _ => None)

  /** counts and inodes are the fields of the file table; held counts, for each inode, the references open files have on
      it: an open adds them, and iput takes one away when a file's count reaches zero. */
  datatype State = State(counts: seq<nat>, inodes: seq<nat>, tasks: map<nat, Descriptors>, held: map<nat, int>)

  ghost predicate PointsAt(s: State, p: (nat, nat), f: nat) {
    p.0 in s.tasks && p.1 < TASK_FILE_NR && s.tasks[p.0][p.1] == Some(f)
  }

  ghost function Places(s: State): set<(nat, nat)> {
    set t, d | t in s.tasks && d in Interval(0, TASK_FILE_NR) :: (t, d)
  }

  /** The descriptors that point at file f. */
  ghost function Users(s: State, f: nat): set<(nat, nat)> {
    set p | p in Places(s) && PointsAt(s, p, f)
  }

  lemma InUsers(s: State, f: nat, p: (nat, nat))
    ensures p in Users(s, f) <==> PointsAt(s, p, f)
  {
    if PointsAt(s, p, f) {
      assert p.1 in Interval(0, TASK_FILE_NR);
      assert (p.0, p.1) in Places(s);
    }
  }

  function Held(s: State, i: nat): int {
    if i in s.held then s.held[i] else 0
  }

  ghost predicate OpenOn(s: State, f: nat, i: nat)
    requires |s.counts| == |s.inodes| == FILE_NR
  {
    f < FILE_NR && s.counts[f] > 0 && s.inodes[f] == i
  }

  /** The files open on inode i. */
  ghost function FilesOn(s: State, i: nat): set<nat>
    requires |s.counts| == |s.inodes| == FILE_NR
  {
    set f | f in Interval(0, FILE_NR) && OpenOn(s, f, i)
  }

  // ---------- what always holds ----------

  /** The count of a file is the number of descriptors that point at it. */
  ghost predicate CountOk(s: State, f: nat)
    requires |s.counts| == FILE_NR
  {
    f < FILE_NR ==> s.counts[f] == |Users(s, f)|
  }

  /** The references on an inode are as many as the files open on it. */
  ghost predicate HeldOk(s: State, i: nat)
    requires |s.counts| == |s.inodes| == FILE_NR
  {
    Held(s, i) == |FilesOn(s, i)|
  }

  ghost predicate InTable(s: State) {
    forall t, d | t in s.tasks && 0 <= d < TASK_FILE_NR && s.tasks[t][d].Some? :: s.tasks[t][d].value < FILE_NR
  }

  ghost predicate Inv(s: State) {
    && |s.counts| == |s.inodes| == FILE_NR
    && InTable(s)
    && (forall f: nat :: CountOk(s, f))
    && (forall i: nat :: HeldOk(s, i))
  }

  // ---------- the two things that happen to a descriptor ----------

  function WithSlot(s: State, t: nat, d: nat, v: Option<nat>): State
    requires t in s.tasks && d < TASK_FILE_NR
  {
    s.(tasks := s.tasks[t := s.tasks[t][d := v]])
  }

  /** Descriptor d of task t becomes another user of file f. */
  function Shared(s: State, t: nat, d: nat, f: nat): State
    requires t in s.tasks && d < TASK_FILE_NR && f < |s.counts|
  {
    WithSlot(s, t, d, Some(f)).(counts := s.counts[f := s.counts[f] + 1])
  }

  /** An unused file becomes open on inode i, with descriptor d of task t as its only user. */
  function Opened(s: State, t: nat, d: nat, f: nat, i: nat): State
    requires t in s.tasks && d < TASK_FILE_NR && f < |s.counts| == |s.inodes|
  {
    WithSlot(s, t, d, Some(f)).(counts := s.counts[f := 1], inodes := s.inodes[f := i], held := s.held[i := Held(s, i) + 1])
  }

  /** Descriptor d of task t is closed; with a file's last user its inode is put. */
  function Closed(s: State, t: nat, d: nat): State
    requires t in s.tasks && d < TASK_FILE_NR && s.tasks[t][d].Some?
    requires s.tasks[t][d].value < |s.counts| == |s.inodes| && s.counts[s.tasks[t][d].value] > 0
  {
    var f := s.tasks[t][d].value;
    var i := s.inodes[f];
    WithSlot(s, t, d, None).(counts := s.counts[f := s.counts[f] - 1],
                             held := if s.counts[f] == 1 then s.held[i := Held(s, i) - 1] else s.held)
  }

  lemma UsersWith(s: State, s': State, t: nat, d: nat, v: Option<nat>, f: nat)
    requires t in s.tasks && d < TASK_FILE_NR && s'.tasks == WithSlot(s, t, d, v).tasks
    ensures s.tasks[t][d].None? ==> (t, d) !in Users(s, f) && Users(s', f) == Users(s, f) + (if v == Some(f) then {(t, d)} else {})
    ensures v.None? ==> Users(s', f) == Users(s, f) - {(t, d)}
    ensures (t, d) in Users(s, f) <==> s.tasks[t][d] == Some(f)
  {
    forall p: (nat, nat)
      ensures p in Users(s', f) <==> (if p == (t, d) then v == Some(f) else p in Users(s, f))
    {
      InUsers(s, f, p);
      InUsers(s', f, p);
    }
    InUsers(s, f, (t, d));
  }

  lemma SharedKeeps(s: State, t: nat, d: nat, f: nat)
    requires Inv(s) && t in s.tasks && d < TASK_FILE_NR && s.tasks[t][d] == None && f < FILE_NR && s.counts[f] > 0
    ensures Inv(Shared(s, t, d, f))
  {
    var s' := Shared(s, t, d, f);
    forall g: nat
      ensures CountOk(s', g)
    {
      assert CountOk(s, g);
      UsersWith(s, s', t, d, Some(f), g);
    }
    forall i: nat
      ensures HeldOk(s', i)
    {
      assert HeldOk(s, i);
      assert FilesOn(s', i) == FilesOn(s, i);
    }
  }

  lemma FilesOnOpened(s: State, s': State, f: nat, i: nat, j: nat)
    requires |s.counts| == |s.inodes| == FILE_NR && f < FILE_NR && s.counts[f] == 0
    requires s'.counts == s.counts[f := 1] && s'.inodes == s.inodes[f := i]
    ensures f !in FilesOn(s, j) && FilesOn(s', j) == FilesOn(s, j) + (if j == i then {f} else {})
  {
    forall g: nat
      ensures OpenOn(s', g, j) <==> OpenOn(s, g, j) || (g == f && j == i)
    {}
  }

  lemma FilesOnClosed(s: State, s': State, f: nat, j: nat)
    requires |s.counts| == |s.inodes| == FILE_NR && f < FILE_NR && s.counts[f] > 0
    requires s'.counts == s.counts[f := s.counts[f] - 1] && s'.inodes == s.inodes
    ensures FilesOn(s', j) == FilesOn(s, j) - (if s.counts[f] == 1 then {f} else {})
    ensures f in FilesOn(s, j) <==> s.inodes[f] == j
  {
    forall g: nat
      ensures OpenOn(s', g, j) <==> OpenOn(s, g, j) && !(g == f && s.counts[f] == 1)
    {}
  }

  lemma OpenedKeeps(s: State, t: nat, d: nat, f: nat, i: nat)
    requires Inv(s) && t in s.tasks && d < TASK_FILE_NR && s.tasks[t][d] == None && f < FILE_NR && s.counts[f] == 0
    ensures Inv(Opened(s, t, d, f, i))
  {
    hide Users, FilesOn;
    var s' := Opened(s, t, d, f, i);
    forall g: nat
      ensures CountOk(s', g)
    {
      assert CountOk(s, g);
      UsersWith(s, s', t, d, Some(f), g);
    }
    forall j: nat
      ensures HeldOk(s', j)
    {
      assert HeldOk(s, j);
      FilesOnOpened(s, s', f, i, j);
    }
  }

  /** What a descriptor points at is open: sys_close never finds a count of zero. */
  lemma UsedIsOpen(s: State, t: nat, d: nat)
    requires Inv(s) && t in s.tasks && d < TASK_FILE_NR && s.tasks[t][d].Some?
    ensures s.tasks[t][d].value < FILE_NR && s.counts[s.tasks[t][d].value] > 0
  {
    var f := s.tasks[t][d].value;
    assert CountOk(s, f);
    InUsers(s, f, (t, d));
  }

  /** The inode's reference goes exactly when the last descriptor of the file goes. */
  lemma ClosedKeeps(s: State, t: nat, d: nat)
    requires Inv(s) && t in s.tasks && d < TASK_FILE_NR && s.tasks[t][d].Some?
    ensures s.tasks[t][d].value < FILE_NR && s.counts[s.tasks[t][d].value] > 0
    ensures Inv(Closed(s, t, d))
    ensures var f, s' := s.tasks[t][d].value, Closed(s, t, d);
            var i := s.inodes[f];
            Held(s', i) == Held(s, i) - (if Users(s, f) == {(t, d)} then 1 else 0)
  {
    hide Users, FilesOn, Held;
    UsedIsOpen(s, t, d);
    var f, s' := s.tasks[t][d].value, Closed(s, t, d);
    LastUser(s, t, d, f);
    ClosedHeld(s, t, d);
    forall g: nat
      ensures CountOk(s', g)
    {
      assert CountOk(s, g);
      UsersWith(s, s', t, d, None, g);
    }
    forall i: nat
      ensures HeldOk(s', i)
    {
      assert HeldOk(s, i);
      FilesOnClosed(s, s', f, i);
    }
  }

  lemma ClosedHeld(s: State, t: nat, d: nat)
    requires t in s.tasks && d < TASK_FILE_NR && s.tasks[t][d].Some?
    requires s.tasks[t][d].value < |s.counts| == |s.inodes| && s.counts[s.tasks[t][d].value] > 0
    ensures var f, s' := s.tasks[t][d].value, Closed(s, t, d);
            forall i: nat :: Held(s', i) == Held(s, i) - (if s.counts[f] == 1 && s.inodes[f] == i then 1 else 0)
  {}

  lemma LastUser(s: State, t: nat, d: nat, f: nat)
    requires Inv(s) && t in s.tasks && d < TASK_FILE_NR && s.tasks[t][d] == Some(f) && f < FILE_NR
    ensures s.counts[f] == 1 <==> Users(s, f) == {(t, d)}
  {
    assert CountOk(s, f);
    InUsers(s, f, (t, d));
    if s.counts[f] == 1 {
      assert |Users(s, f) - {(t, d)}| == 0;
    }
  }

  // ---------- fork and exit ----------

  function NoFiles(): Descriptors {
    seq(TASK_FILE_NR, _ => None)
  }

  predicate PointsInTable(s: State, p: nat)
    requires p in s.tasks
  {
    forall d | 0 <= d < TASK_FILE_NR && s.tasks[p][d].Some? :: s.tasks[p][d].value < FILE_NR
  }

  /** The child after fork has counted the first n of its descriptors, which are copies of those of task p. */
  function Forked(s: State, p: nat, child: nat, n: nat): (r: State)
    requires p in s.tasks && child !in s.tasks && n <= TASK_FILE_NR && |s.counts| == FILE_NR && PointsInTable(s, p)
    ensures r.tasks.Keys == s.tasks.Keys + {child} && |r.counts| == FILE_NR
    ensures forall t | t in s.tasks :: r.tasks[t] == s.tasks[t]
    ensures forall d | 0 <= d < TASK_FILE_NR :: r.tasks[child][d] == if d < n then s.tasks[p][d] else None
    ensures r.inodes == s.inodes && r.held == s.held
  {
    if n == 0 then s.(tasks := s.tasks[child := NoFiles()])
    else
      var r := Forked(s, p, child, n - 1);
      match s.tasks[p][n - 1]
      case None => r
      case Some(f) => Shared(r, child, n - 1, f)
  }

  lemma NewTask(s: State, child: nat)
    requires Inv(s) && child !in s.tasks
    ensures Inv(s.(tasks := s.tasks[child := NoFiles()]))
  {
    var s' := s.(tasks := s.tasks[child := NoFiles()]);
    forall f: nat
      ensures CountOk(s', f)
    {
      assert CountOk(s, f);
      forall p: (nat, nat)
        ensures p in Users(s', f) <==> p in Users(s, f)
      {
        InUsers(s, f, p);
        InUsers(s', f, p);
      }
      assert Users(s', f) == Users(s, f);
    }
    forall i: nat
      ensures HeldOk(s', i)
    {
      assert HeldOk(s, i);
      assert FilesOn(s', i) == FilesOn(s, i);
    }
  }

  /** After fork the child has the parent's descriptors and every count is right again. */
  lemma {:induction false} ForkedKeeps(s: State, p: nat, child: nat, n: nat)
    requires Inv(s) && p in s.tasks && child !in s.tasks && n <= TASK_FILE_NR
    ensures Inv(Forked(s, p, child, n))
    ensures n == TASK_FILE_NR ==> Forked(s, p, child, n).tasks == s.tasks[child := s.tasks[p]]
  {
    hide CountOk, HeldOk;
    if n == 0 {
      NewTask(s, child);
    } else {
      ForkedKeeps(s, p, child, n - 1);
      if s.tasks[p][n - 1].Some? {
        var r := Forked(s, p, child, n - 1);
        UsedIsOpen(r, p, n - 1);
        SharedKeeps(r, child, n - 1, s.tasks[p][n - 1].value);
      }
    }
    if n == TASK_FILE_NR {
      assert Forked(s, p, child, n).tasks[child] == s.tasks[p];
    }
  }

  /** Task t after exit has closed its first n descriptors. None stands for sys_close's failed assertion. */
  function ClosedAll(s: State, t: nat, n: nat): (r: Option<State>)
    requires |s.counts| == |s.inodes| == FILE_NR && t in s.tasks && n <= TASK_FILE_NR
    ensures r.Some? ==> |r.value.counts| == |r.value.inodes| == FILE_NR && r.value.tasks.Keys == s.tasks.Keys
    ensures r.Some? ==> forall u | u in s.tasks && u != t :: r.value.tasks[u] == s.tasks[u]
    ensures r.Some? ==> forall d | 0 <= d < TASK_FILE_NR :: r.value.tasks[t][d] == if d < n then None else s.tasks[t][d]
  {
    if n == 0 then Some(s) else
      match ClosedAll(s, t, n - 1)
      case None => None
      case Some(r) =>
        match r.tasks[t][n - 1]
        case None => Some(r)
        case Some(f) => if f < FILE_NR && r.counts[f] > 0 then Some(Closed(r, t, n - 1)) else None
  }

  /** Exit never fails that assertion, and every count is right after each close. */
  lemma {:induction false} ClosedAllKeeps(s: State, t: nat, n: nat)
    requires Inv(s) && t in s.tasks && n <= TASK_FILE_NR
    ensures ClosedAll(s, t, n).Some? && Inv(ClosedAll(s, t, n).value)
  {
    hide InTable, CountOk, HeldOk;
    if n > 0 {
      ClosedAllKeeps(s, t, n - 1);
      var r := ClosedAll(s, t, n - 1).value;
      if r.tasks[t][n - 1].Some? {
        ClosedKeeps(r, t, n - 1);
      }
    }
  }

  lemma NoneClosed(s: State, t: nat)
    requires |s.counts| == |s.inodes| == FILE_NR && t in s.tasks
    ensures ClosedAll(s, t, 0) == Some(s)
  {}

  lemma NextClosed(s: State, t: nat, n: nat, r: State)
    requires |s.counts| == |s.inodes| == FILE_NR && t in s.tasks && n < TASK_FILE_NR
    requires ClosedAll(s, t, n) == Some(r) && Inv(r)
    ensures t in r.tasks && match r.tasks[t][n]
                            case None => ClosedAll(s, t, n + 1) == Some(r)
                            case Some(f) => f < FILE_NR && r.counts[f] > 0 && ClosedAll(s, t, n + 1) == Some(Closed(r, t, n))
  {
    if r.tasks[t][n].Some? {
      UsedIsOpen(r, t, n);
    }
  }

  /** A task without descriptors can leave. */
  lemma TaskGone(s: State, t: nat)
    requires Inv(s) && t in s.tasks && forall d | 0 <= d < TASK_FILE_NR :: s.tasks[t][d] == None
    ensures Inv(s.(tasks := s.tasks - {t}))
  {
    var s' := s.(tasks := s.tasks - {t});
    forall f: nat
      ensures CountOk(s', f)
    {
      assert CountOk(s, f);
      forall p: (nat, nat)
        ensures p in Users(s', f) <==> p in Users(s, f)
      {
        InUsers(s, f, p);
        InUsers(s', f, p);
      }
      assert Users(s', f) == Users(s, f);
    }
    forall i: nat
      ensures HeldOk(s', i)
    {
      assert HeldOk(s, i);
      assert FilesOn(s', i) == FilesOn(s, i);
    }
  }

  /** When the last task is gone every file is closed and no inode is held. */
  lemma NothingHeld(s: State, f: nat, i: nat)
    requires Inv(s) && f < FILE_NR && s.tasks == map[]
    ensures s.counts[f] == 0 && Held(s, i) == 0
  {
    forall g: nat | g < FILE_NR
      ensures s.counts[g] == 0
    {
      assert CountOk(s, g);
      assert Places(s) == {};
      assert Users(s, g) == {};
    }
    assert HeldOk(s, i);
    assert FilesOn(s, i) == {};
  }

  // ---------- whole runs ----------

  datatype Event =
    | Open(t: nat, d: nat, f: nat, i: nat)
    | Pipe(t: nat, d: nat, f: nat, e: nat, g: nat, i: nat)
    | Dup(t: nat, from: nat, to: nat)
    | Close(t: nat, d: nat)
    | Fork(p: nat, child: nat)
    | Exit(t: nat)

  /** d is the first free descriptor of task t from number low on. */
  ghost predicate FirstFree(s: State, t: nat, low: nat, d: nat) {
    && t in s.tasks && low <= d < TASK_FILE_NR && s.tasks[t][d] == None
    && forall e | low <= e < d :: s.tasks[t][e].Some?
  }

  /** f is the first unused file; the first three are never handed out. */
  ghost predicate FirstUnused(s: State, f: nat)
    requires |s.counts| == FILE_NR
  {
    3 <= f < FILE_NR && s.counts[f] == 0 && forall g | 3 <= g < f :: s.counts[g] > 0
  }

  /**
   * Calls that succeed, by the tests the code makes; dup2 is a close, if its target is open, followed by a dup from
   * that number on. That every descriptor leads to an open file is not among the tests.
   */
  ghost predicate Step(s: State, e: Event, s': State) {
    && |s.counts| == |s.inodes| == FILE_NR
    && match e
       case Open(t, d, f, i) => FirstFree(s, t, 3, d) && FirstUnused(s, f) && s' == Opened(s, t, d, f, i)
       case Pipe(t, d, f, e, g, i) =>
         && FirstFree(s, t, 3, d) && FirstUnused(s, f)
         && var m := Opened(s, t, d, f, i);
            |m.counts| == FILE_NR && FirstFree(m, t, 3, e) && FirstUnused(m, g) && s' == Opened(m, t, e, g, i)
       case Dup(t, from, to) =>
         && t in s.tasks && from < TASK_FILE_NR && s.tasks[t][from].Some? && to < TASK_FILE_NR && s.tasks[t][to] == None
         && s.tasks[t][from].value < FILE_NR && s' == Shared(s, t, to, s.tasks[t][from].value)
       case Close(t, d) =>
         && t in s.tasks && d < TASK_FILE_NR && s.tasks[t][d].Some?
         && s.tasks[t][d].value < FILE_NR && s.counts[s.tasks[t][d].value] > 0 && s' == Closed(s, t, d)
       case Fork(p, child) => p in s.tasks && child !in s.tasks && PointsInTable(s, p) && s' == Forked(s, p, child, TASK_FILE_NR)
       case Exit(t) =>
         t in s.tasks && var r := ClosedAll(s, t, TASK_FILE_NR); r.Some? && s' == r.value.(tasks := r.value.tasks - {t})
  }

  lemma StepKeeps(s: State, e: Event, s': State)
    requires Inv(s) && Step(s, e, s')
    ensures Inv(s')
  {
    hide InTable, CountOk, HeldOk;
    match e {
      case Open(t, d, f, i) => OpenedKeeps(s, t, d, f, i);
      case Pipe(t, d, f, e, g, i) =>
        OpenedKeeps(s, t, d, f, i);
        OpenedKeeps(Opened(s, t, d, f, i), t, e, g, i);
      case Dup(t, from, to) =>
        UsedIsOpen(s, t, from);
        SharedKeeps(s, t, to, s.tasks[t][from].value);
      case Close(t, d) => ClosedKeeps(s, t, d);
      case Fork(p, child) => ForkedKeeps(s, p, child, TASK_FILE_NR);
      case Exit(t) =>
        ClosedAllKeeps(s, t, TASK_FILE_NR);
        TaskGone(ClosedAll(s, t, TASK_FILE_NR).value, t);
    }
  }

  /** Three tasks share the first three files: the keyboard, and the console twice. */
  function BootFiles(): Descriptors {
    seq(TASK_FILE_NR, d requires 0 <= d => if d < 3 then Some(d) else None)
  }

  function Boot(keyboard: nat, console: nat): State {
    State(seq(FILE_NR, f => if f < 3 then 3 else 0),
          seq(FILE_NR, f => if f == 0 then keyboard else if f < 3 then console else 0),
          map[0 := BootFiles(), 1 := BootFiles(), 2 := BootFiles()],
          map[keyboard := 1, console := 2])
  }

  lemma BootInv(keyboard: nat, console: nat)
    requires keyboard != console
    ensures Inv(Boot(keyboard, console))
  {
    var s := Boot(keyboard, console);
    forall f: nat
      ensures CountOk(s, f)
    {
      if f < 3 {
        var three: set<(nat, nat)> := {(0, f), (1, f), (2, f)};
        forall p: (nat, nat)
          ensures p in Users(s, f) <==> p in three
        {
          InUsers(s, f, p);
        }
        assert Users(s, f) == three;
      } else {
        forall p: (nat, nat)
          ensures p !in Users(s, f)
        {
          InUsers(s, f, p);
        }
        assert Users(s, f) == {};
      }
    }
    forall i: nat
      ensures HeldOk(s, i)
    {
      assert FilesOn(s, i) == if i == keyboard then {0} else if i == console then {1, 2} else {};
    }
  }

  ghost predicate Run(ss: seq<State>, es: seq<Event>) {
    |ss| == |es| + 1 && forall n | 0 <= n < |es| :: Step(ss[n], es[n], ss[n + 1])
  }

  /** From boot on, whatever succeeds: every count is the number of descriptors, every inode is held by its open files. */
  lemma {:induction false} RunKeeps(ss: seq<State>, es: seq<Event>, keyboard: nat, console: nat, n: nat)
    requires Run(ss, es) && ss[0] == Boot(keyboard, console) && keyboard != console && n < |ss|
    ensures Inv(ss[n])
  {
    hide Inv, Step;
    if n > 0 {
      RunKeeps(ss, es, keyboard, console, n - 1);
      StepKeeps(ss[n - 1], es[n - 1], ss[n]);
    } else {
      BootInv(keyboard, console);
    }
  }
}
