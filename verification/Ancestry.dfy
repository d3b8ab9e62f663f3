/** Who is whose child: over every run the parent of a process is the one that forked it, or else its nearest ancestor still there. */
module Ancestry {
  import opened Limits
  import opened Options
  import opened Processes

  // ---------- what each step does to the children ----------

  /** A fork gives the caller exactly one more child, which is alive, and nobody else any. */
  lemma ForkAddsChild(s: State, p: nat, s': State) returns (k: nat)
    requires Inv(s) && Step(s, Fork(p), s')
    ensures k == FirstFree(s.table) < NR_TASKS && s.table[k].None? && !DeadChild(s'.table, p, k, k)
    ensures forall t: nat, want, i :: Child(s'.table, t, want, i) <==>
                                        Child(s.table, t, want, i) || (t == p && i == k && (want == -1 || want == k))
  {
    hide Waits, Statuses;
    k := FirstFree(s.table);
    assert s.table[0].Some? && s.table[1].Some?;
  }

  /** A waitpid for the child just forked waits for it. */
  lemma ForkedIsAwaited(s: State, p: nat, s': State, o: Outcome) returns (k: nat)
    requires Inv(s) && Step(s, Fork(p), s')
    ensures k == FirstFree(s.table) < NR_TASKS && (Finds(s'.table, p, k, o) ==> o == Sleeps)
  {
    hide Inv, Step;
    k := ForkAddsChild(s, p, s');
    assert Child(s'.table, p, k, k);
  }

  /** The end of an exit hands all children of the process to its own parent, and changes nobody else's. */
  lemma EndHandsOver(s: State, e: Event, s': State)
    requires Inv(s) && Step(s, e, s') && (e.Exit? || e.ExitEnd?)
    ensures var q := s.table[e.p].value.ppid;
            forall t: nat, want, i :: Child(s'.table, t, want, i) <==>
                                        t != e.p && (Child(s.table, t, want, i) || (t == q && Child(s.table, e.p, want, i)))
  {
    hide Waits, Statuses;
    assert ParentAlive(s, e.p);
    assert s.table[e.p].value.ppid != e.p by {
      if e.ExitEnd? {
        NotIdle(s, e.p);
      }
    }
  }

  lemma NotIdle(s: State, p: nat)
    requires Inv(s) && Slept(s, p)
    ensures 0 < p
  {
    hide Family, Waits;
    assert SleptStays(s, p);
  }

  /** No other step changes whose child a task is; waitpid takes out the one it reaps. */
  lemma OthersKeepChildren(s: State, e: Event, s': State)
    requires Inv(s) && Step(s, e, s') && !e.Fork? && !e.Exit? && !e.ExitEnd?
    ensures forall t: nat, want, i :: Child(s'.table, t, want, i) <==>
                                        Child(s.table, t, want, i) && !(e.Wait? && e.o.Reaped? && i == e.o.pid)
  {
    hide Inv;
  }

  // ---------- the family tree of a whole run ----------

  /** The task, by birth, that forked birth b before step n; birth 0 for the three tasks made at boot. */
  ghost function Maker(ss: seq<State>, es: seq<Event>, n: nat, b: nat): nat
    requires n <= |es| < |ss|
  {
    if n == 0 then 0
    else if es[n - 1].Fork? && ss[n - 1].born == b && es[n - 1].p < |ss[n - 1].births| then ss[n - 1].births[es[n - 1].p]
    else Maker(ss, es, n - 1, b)
  }

  predicate Ends(e: Event) {
    e.Exit? || e.ExitEnd?
  }

  /** Before step n the process of birth b has reached the end of its exit, where children are handed over. */
  ghost predicate HandedOver(ss: seq<State>, es: seq<Event>, n: nat, b: nat)
    requires n <= |es| < |ss|
  {
    exists m :: 0 <= m < n && Ends(es[m]) && es[m].p < |ss[m].births| && ss[m].births[es[m].p] == b
  }

  /** The nearest ancestor of birth b that has not handed its children over. */
  ghost function Heir(ss: seq<State>, es: seq<Event>, n: nat, b: nat): nat
    requires n <= |es| < |ss|
    decreases b
  {
    var f := Maker(ss, es, n, b);
    if f < b && HandedOver(ss, es, n, f) then Heir(ss, es, n, f) else f
  }

  /** Tasks are forked by older ones, and birth b is made once it is less than born. */
  lemma {:induction false} MakerIsOlder(ss: seq<State>, es: seq<Event>, n: nat, b: nat)
    requires Run(ss, es) && n <= |es| && 0 < b
    ensures Maker(ss, es, n, b) < b
  {
    hide Family, Waits, Step;
    if n > 0 {
      MakerIsOlder(ss, es, n - 1, b);
      RunKeeps(ss, es, n - 1);
      assert Step(ss[n - 1], es[n - 1], ss[n]);
      if es[n - 1].Fork? {
        CallerBorn(ss[n - 1], es[n - 1].p, ss[n]);
      }
    }
  }

  lemma CallerBorn(s: State, p: nat, s': State)
    requires Inv(s) && Step(s, Fork(p), s')
    ensures p < |s.births| && s.births[p] < s.born && s.births[p] !in s.exits
  {
    hide Family, Waits;
    assert StatusKept(s, p);
  }

  /** Whoever has handed over its children has an exit status. */
  lemma {:induction false} HandedOverExited(ss: seq<State>, es: seq<Event>, n: nat, b: nat)
    requires Run(ss, es) && n <= |es| && HandedOver(ss, es, n, b)
    ensures b in ss[n].exits && 0 < b
  {
    hide Inv, Step;
    var m :| 0 <= m < n && Ends(es[m]) && es[m].p < |ss[m].births| && ss[m].births[es[m].p] == b;
    RunKeeps(ss, es, m);
    assert Step(ss[m], es[m], ss[m + 1]);
    EnderExited(ss[m], es[m], ss[m + 1]);
    RecordsStayAlong(ss, es, m + 1, n);
  }

  lemma EnderExited(s: State, e: Event, s': State)
    requires Inv(s) && Step(s, e, s') && (e.Exit? || e.ExitEnd?)
    ensures e.p < |s.births| && s.births[e.p] in s'.exits && 0 < s.births[e.p]
  {
    hide Waits;
    if e.ExitEnd? {
      assert SleptStays(s, e.p) && StatusKept(s, e.p);
    }
    assert ParentAlive(s, e.p);
  }

  lemma HeirIsOlder(ss: seq<State>, es: seq<Event>, n: nat, b: nat)
    requires Run(ss, es) && n <= |es| < |ss| && 0 < b
    ensures Heir(ss, es, n, b) < b && !HandedOver(ss, es, n, Heir(ss, es, n, b))
    decreases b
  {
    hide Run, HandedOver;
    MakerIsOlder(ss, es, n, b);
    var f := Maker(ss, es, n, b);
    if HandedOver(ss, es, n, f) {
      HandedOverExited(ss, es, n, f);
      HeirIsOlder(ss, es, n, f);
    }
  }

  lemma HandedOverNext(ss: seq<State>, es: seq<Event>, n: nat, b: nat)
    requires n < |es| < |ss|
    ensures HandedOver(ss, es, n + 1, b) <==>
              HandedOver(ss, es, n, b) || (Ends(es[n]) && es[n].p < |ss[n].births| && ss[n].births[es[n].p] == b)
  {}

  /** An exit that ends hands those whose heir it was to its own heir; no other step changes an heir. */
  lemma HeirNext(ss: seq<State>, es: seq<Event>, n: nat, b: nat)
    requires Run(ss, es) && n < |es| < |ss| && 0 < b < ss[n].born
    requires Ends(es[n]) ==> es[n].p < |ss[n].births| && 0 < ss[n].births[es[n].p] < ss[n].born
    ensures var h := Heir(ss, es, n, b);
            Heir(ss, es, n + 1, b) == if Ends(es[n]) && ss[n].births[es[n].p] == h then Heir(ss, es, n, h) else h
    decreases b
  {
    hide Run, HandedOver;
    MakerIsOlder(ss, es, n, b);
    var f := Maker(ss, es, n, b);
    assert Maker(ss, es, n + 1, b) == f;
    HandedOverNext(ss, es, n, f);
    if HandedOver(ss, es, n + 1, f) {
      HandedOverExited(ss, es, n + 1, f);
      HeirIsOlder(ss, es, n, f);
      HeirNext(ss, es, n, f);
    }
  }

  /** The parent of every task but idle is its heir. */
  ghost predicate ParentsAreHeirs(ss: seq<State>, es: seq<Event>, n: nat)
    requires n <= |es| < |ss|
  {
    forall i: nat | 0 < i < NR_TASKS && i < |ss[n].table| && ss[n].table[i].Some? :: ParentIsHeir(ss, es, n, i)
  }

  ghost predicate ParentIsHeir(ss: seq<State>, es: seq<Event>, n: nat, i: nat)
    requires n <= |es| < |ss| && i < NR_TASKS && ss[n].table[i].Some?
  {
    var p := ss[n].table[i].value.ppid;
    i < |ss[n].births| && p < |ss[n].births| && ss[n].births[p] == Heir(ss, es, n, ss[n].births[i])
  }

  /**
   * Over every run, the parent of a task is the one that forked it, or if that one's exit has handed its children over, the
   * nearest ancestor whose exit has not.
   */
  lemma {:induction false} RunParents(ss: seq<State>, es: seq<Event>, n: nat)
    requires Run(ss, es) && n <= |es|
    ensures ParentsAreHeirs(ss, es, n)
  {
    hide Step, ParentIsHeir, Inv;
    if n == 0 {
      BootParents(ss, es);
    } else {
      RunParents(ss, es, n - 1);
      RunKeeps(ss, es, n - 1);
      assert Step(ss[n - 1], es[n - 1], ss[n]);
      forall i: nat | 0 < i < NR_TASKS && ss[n].table[i].Some?
        ensures ParentIsHeir(ss, es, n, i)
      {
        NextParent(ss, es, n - 1, i);
      }
    }
  }

  lemma BootParents(ss: seq<State>, es: seq<Event>)
    requires Run(ss, es)
    ensures ParentsAreHeirs(ss, es, 0)
  {}

  lemma NextParent(ss: seq<State>, es: seq<Event>, n: nat, i: nat)
    requires Run(ss, es) && n < |es| < |ss| && Inv(ss[n]) && Step(ss[n], es[n], ss[n + 1])
    requires ParentsAreHeirs(ss, es, n) && 0 < i < NR_TASKS && ss[n + 1].table[i].Some?
    ensures ParentIsHeir(ss, es, n + 1, i)
  {
    hide Inv, Step, HandedOver, Run, Heir;
    var s, e, s' := ss[n], es[n], ss[n + 1];
    SameLength(s, e, s');
    if s.table[i].Some? {
      assert ParentIsHeir(ss, es, n, i);
      OldTask(s, e, s', i);
      if Ends(e) {
        Ender(s, e, s', i);
        assert ParentIsHeir(ss, es, n, e.p);
      }
      HeirNext(ss, es, n, s.births[i]);
    } else {
      NewTask(s, e, s', i);
      NewHeir(ss, es, n);
    }
  }

  lemma SameLength(s: State, e: Event, s': State)
    requires Inv(s) && Step(s, e, s')
    ensures |s.births| == |s'.births| == NR_TASKS
  {}

  /** The heir of a task just forked is the one that forked it. */
  lemma NewHeir(ss: seq<State>, es: seq<Event>, n: nat)
    requires Run(ss, es) && n < |es| < |ss| && Inv(ss[n]) && Step(ss[n], es[n], ss[n + 1]) && es[n].Fork?
    ensures es[n].p < |ss[n].births| && Heir(ss, es, n + 1, ss[n].born) == ss[n].births[es[n].p]
  {
    hide Inv, Step, HandedOver, Run;
    CallerBorn(ss[n], es[n].p, ss[n + 1]);
    var b := ss[n].births[es[n].p];
    HandedOverNext(ss, es, n, b);
    if HandedOver(ss, es, n, b) {
      HandedOverExited(ss, es, n, b);
    }
  }

  lemma NewTask(s: State, e: Event, s': State, i: nat)
    requires Inv(s) && Step(s, e, s') && i < NR_TASKS && s.table[i].None? && s'.table[i].Some?
    ensures e.Fork? && s'.births[i] == s.born && s'.table[i].value.ppid == e.p < NR_TASKS && s'.births[e.p] == s.births[e.p]
  {
    hide Waits, Statuses, Family;
  }

  lemma OldTask(s: State, e: Event, s': State, i: nat)
    requires Inv(s) && Step(s, e, s') && 0 < i < NR_TASKS && s.table[i].Some? && s'.table[i].Some?
    ensures 0 < s.births[i] < s.born && s'.births[i] == s.births[i]
    ensures var q := s.table[i].value.ppid;
            var heir := if Ends(e) && q == e.p then s.table[e.p].value.ppid else q;
            s'.table[i].value.ppid == heir < NR_TASKS && s'.births[heir] == s.births[heir]
  {
    hide Waits, BirthsDiffer, StatusesAccounted;
    assert ParentAlive(s, i) && StatusKept(s, i);
    if Ends(e) {
      assert ParentAlive(s, e.p);
      EnderExited(s, e, s');
    } else if e.Fork? {
      assert s.table[s.table[i].value.ppid].Some?;
    }
  }

  /** The task whose exit ends is some other task's parent exactly if that one's parent has its birth. */
  lemma Ender(s: State, e: Event, s': State, i: nat)
    requires Inv(s) && Step(s, e, s') && Ends(e) && 0 < i < NR_TASKS && s.table[i].Some?
    ensures 0 < e.p < NR_TASKS && s.table[e.p].Some? && 0 < s.births[e.p] < s.born
    ensures var q := s.table[i].value.ppid; q < NR_TASKS && (s.births[q] == s.births[e.p] <==> q == e.p)
  {
    hide Waits, StatusesAccounted;
    assert ParentAlive(s, i) && StatusKept(s, e.p) && ParentAlive(s, e.p);
    EnderExited(s, e, s');
    if e.ExitEnd? {
      NotIdle(s, e.p);
    }
  }
}
