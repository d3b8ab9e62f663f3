/** Which descriptors share an open file: over every run, exactly those that stem from the same open, pipe end or boot file. */
module FileOrigins {
  import opened OpenFiles
  import opened Options

  /** Where a descriptor comes from: one of the files open at boot, or the call number m of a run that opened it. */
  datatype Source = AtBoot(f: nat) | ByOpen(m: nat) | ReadEnd(m: nat) | WriteEnd(m: nat)

  /** Where descriptor d of task t comes from after n calls, by the calls alone; None if it is closed. */
  ghost function Origin(es: seq<Event>, n: nat, t: nat, d: nat): Option<Source>
    requires n <= |es|
  {
    if n == 0 then
      if t < 3 && d < 3 then Some(AtBoot(d)) else None
    else
      match es[n - 1]
      case Open(u, e, _, _) => if t == u && d == e then Some(ByOpen(n - 1)) else Origin(es, n - 1, t, d)
      case Pipe(u, e, _, e', _, _) =>
        if t == u && d == e then Some(ReadEnd(n - 1))
        else if t == u && d == e' then Some(WriteEnd(n - 1))
        else Origin(es, n - 1, t, d)
      case Dup(u, from, to) => Origin(es, n - 1, t, if t == u && d == to then from else d)
      case Close(u, e) => if t == u && d == e then None else Origin(es, n - 1, t, d)
      case Fork(p, child) => Origin(es, n - 1, if t == child then p else t, d)
      case Exit(u) => if t == u then None else Origin(es, n - 1, t, d)
  }

  /** The inode that the source is open on. */
  ghost function InodeOf(es: seq<Event>, o: Source, keyboard: nat, console: nat): nat {
    match o
    case AtBoot(f) => if f == 0 then keyboard else console
    case _ => if o.m < |es| && (es[o.m].Open? || es[o.m].Pipe?) then es[o.m].i else 0
  }

  /** The call that opened file f last. */
  ghost function Opener(es: seq<Event>, n: nat, f: nat): Source
    requires n <= |es|
  {
    if n == 0 then AtBoot(f)
    else
      match es[n - 1]
      case Open(_, _, g, _) => if f == g then ByOpen(n - 1) else Opener(es, n - 1, f)
      case Pipe(_, _, g, _, h, _) =>
        if f == g then ReadEnd(n - 1) else if f == h then WriteEnd(n - 1) else Opener(es, n - 1, f)
      case _ => Opener(es, n - 1, f)
  }

  /** Descriptor d of task t, if it is open, points at the file its source opened. */
  ghost predicate Traced(s: State, es: seq<Event>, n: nat, t: nat, d: nat)
    requires n <= |es|
  {
    if t in s.tasks && d < TASK_FILE_NR && s.tasks[t][d].Some? then Origin(es, n, t, d) == Some(Opener(es, n, s.tasks[t][d].value))
    else Origin(es, n, t, d) == None
  }

  ghost predicate AllTraced(s: State, es: seq<Event>, n: nat)
    requires n <= |es|
  {
    forall t: nat, d: nat :: Traced(s, es, n, t, d)
  }

  lemma BootTraced(s: State, es: seq<Event>, keyboard: nat, console: nat)
    requires s == Boot(keyboard, console)
    ensures AllTraced(s, es, 0)
  {}

  lemma NextTraced(s: State, es: seq<Event>, n: nat, s': State, t: nat, d: nat)
    requires n < |es| && Inv(s) && Step(s, es[n], s') && AllTraced(s, es, n)
    ensures Traced(s', es, n + 1, t, d)
  {
    hide CountOk, HeldOk;
    assert Traced(s, es, n, t, d);
    match es[n] {
      case Open(u, e, f, i) =>
        Unpointed(s, t, d);
      case Pipe(u, e, f, e', g, i) =>
        Unpointed(s, t, d);
      case Dup(u, from, to) =>
        assert Traced(s, es, n, t, from);
      case Close(u, e) =>
      case Fork(p, child) =>
        assert Traced(s, es, n, p, d);
      case Exit(u) =>
    }
  }

  /** An unused file has no descriptor. */
  lemma Unpointed(s: State, t: nat, d: nat)
    requires Inv(s)
    ensures t in s.tasks && d < TASK_FILE_NR && s.tasks[t][d].Some? ==>
              s.tasks[t][d].value < FILE_NR && s.counts[s.tasks[t][d].value] > 0
  {
    hide Inv;
    if t in s.tasks && d < TASK_FILE_NR && s.tasks[t][d].Some? {
      UsedIsOpen(s, t, d);
    }
  }

  lemma {:induction false} RunTraced(ss: seq<State>, es: seq<Event>, keyboard: nat, console: nat, n: nat)
    requires Run(ss, es) && ss[0] == Boot(keyboard, console) && keyboard != console && n < |ss|
    ensures AllTraced(ss[n], es, n)
  {
    hide Inv, Step, Traced;
    if n == 0 {
      BootTraced(ss[0], es, keyboard, console);
    } else {
      RunTraced(ss, es, keyboard, console, n - 1);
      RunKeeps(ss, es, keyboard, console, n - 1);
      forall t: nat, d: nat
        ensures Traced(ss[n], es, n, t, d)
      {
        NextTraced(ss[n - 1], es, n - 1, ss[n], t, d);
      }
    }
  }

  /** Different files were opened by different calls. */
  lemma {:induction false} OpenersDiffer(ss: seq<State>, es: seq<Event>, n: nat, f: nat, g: nat)
    requires Run(ss, es) && n <= |es| && Opener(es, n, f) == Opener(es, n, g)
    ensures f == g
  {
    if n > 0 {
      OpenerBefore(es, n - 1, f);
      OpenerBefore(es, n - 1, g);
      if Opener(es, n, f) == Opener(es, n - 1, f) && Opener(es, n, g) == Opener(es, n - 1, g) {
        OpenersDiffer(ss, es, n - 1, f, g);
      }
    }
  }

  lemma {:induction false} OpenerBefore(es: seq<Event>, n: nat, f: nat)
    requires n <= |es|
    ensures Opener(es, n, f).AtBoot? || Opener(es, n, f).m < n
  {
    if n > 0 {
      OpenerBefore(es, n - 1, f);
    }
  }

  lemma {:induction false} OpenersInode(ss: seq<State>, es: seq<Event>, keyboard: nat, console: nat, n: nat, f: nat)
    requires Run(ss, es) && ss[0] == Boot(keyboard, console) && keyboard != console && n < |ss|
    requires |ss[n].counts| == |ss[n].inodes| == FILE_NR && f < FILE_NR && ss[n].counts[f] > 0
    ensures ss[n].inodes[f] == InodeOf(es, Opener(es, n, f), keyboard, console)
  {
    hide Inv, Step;
    if n > 0 {
      RunKeeps(ss, es, keyboard, console, n - 1);
      assert Step(ss[n - 1], es[n - 1], ss[n]);
      OnlyOpens(ss[n - 1], es[n - 1], ss[n], f);
      if Opener(es, n, f) == Opener(es, n - 1, f) {
        OpenerBefore(es, n - 1, f);
        OpenersInode(ss, es, keyboard, console, n - 1, f);
      }
    }
  }

  /** Only a call that opens file f raises its count from zero or changes its inode. */
  lemma OnlyOpens(s: State, e: Event, s': State, f: nat)
    requires Inv(s) && Step(s, e, s') && f < FILE_NR
    ensures |s.counts| == |s.inodes| == |s'.counts| == |s'.inodes| == FILE_NR
    ensures if (e.Open? && f == e.f) || (e.Pipe? && (f == e.f || f == e.g)) then s'.inodes[f] == e.i
            else s'.inodes[f] == s.inodes[f] && (s'.counts[f] > 0 ==> s.counts[f] > 0)
  {
    hide CountOk, HeldOk;
    match e {
      case Fork(p, child) => ForkedCounts(s, p, child, TASK_FILE_NR, f);
      case Exit(t) => ClosedCounts(s, t, TASK_FILE_NR, f);
      case Dup(t, from, to) => UsedIsOpen(s, t, from);
      case _ =>
    }
  }

  lemma {:induction false} ForkedCounts(s: State, p: nat, child: nat, n: nat, f: nat)
    requires Inv(s) && p in s.tasks && child !in s.tasks && n <= TASK_FILE_NR && f < FILE_NR
    ensures Forked(s, p, child, n).counts[f] > 0 ==> s.counts[f] > 0
  {
    hide CountOk, HeldOk;
    if n > 0 {
      ForkedCounts(s, p, child, n - 1, f);
      if s.tasks[p][n - 1].Some? {
        UsedIsOpen(s, p, n - 1);
      }
    }
  }

  lemma {:induction false} ClosedCounts(s: State, t: nat, n: nat, f: nat)
    requires |s.counts| == |s.inodes| == FILE_NR && t in s.tasks && n <= TASK_FILE_NR && f < FILE_NR && ClosedAll(s, t, n).Some?
    ensures var r := ClosedAll(s, t, n).value; r.inodes == s.inodes && (r.counts[f] > 0 ==> s.counts[f] > 0)
  {
    if n > 0 {
      ClosedCounts(s, t, n - 1, f);
    }
  }

  /**
   * Over every run from boot: a descriptor is open exactly if it has a source; two descriptors, of whatever tasks, share a file
   * exactly if they have the same source; and the file is open on the inode of that source.
   */
  lemma SharedBySource(ss: seq<State>, es: seq<Event>, keyboard: nat, console: nat, n: nat, t: nat, d: nat, u: nat, e: nat)
    requires Run(ss, es) && ss[0] == Boot(keyboard, console) && keyboard != console && n < |ss|
    ensures (t in ss[n].tasks && d < TASK_FILE_NR && ss[n].tasks[t][d].Some?) <==> Origin(es, n, t, d).Some?
    ensures Origin(es, n, t, d).Some? && Origin(es, n, u, e).Some? ==>
              && u in ss[n].tasks && e < TASK_FILE_NR
              && (ss[n].tasks[t][d] == ss[n].tasks[u][e] <==> Origin(es, n, t, d) == Origin(es, n, u, e))
              && ss[n].tasks[t][d].value < |ss[n].inodes|
              && ss[n].inodes[ss[n].tasks[t][d].value] == InodeOf(es, Origin(es, n, t, d).value, keyboard, console)
  {
    hide Step, Opener, Origin, Inv;
    RunTraced(ss, es, keyboard, console, n);
    RunKeeps(ss, es, keyboard, console, n);
    assert Traced(ss[n], es, n, t, d) && Traced(ss[n], es, n, u, e);
    if Origin(es, n, t, d).Some? && Origin(es, n, u, e).Some? {
      var f, g := ss[n].tasks[t][d].value, ss[n].tasks[u][e].value;
      UsedIsOpen(ss[n], t, d);
      TableSize(ss[n]);
      OpenersInode(ss, es, keyboard, console, n, f);
      if Opener(es, n, f) == Opener(es, n, g) {
        OpenersDiffer(ss, es, n, f, g);
      }
    }
  }

  lemma TableSize(s: State)
    requires Inv(s)
    ensures |s.counts| == |s.inodes| == FILE_NR
  {}
}
