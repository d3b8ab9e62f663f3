/** What is found under a name: over every run, what the last call that entered the name put there, unless it was removed since. */
module Lookups {
  import opened Limits
  import opened Links
  import opened Options

  /** Directory d has an entry m that names inode n. */
  ghost predicate Finds(s: State, d: nat, m: string, n: nat) {
    d in s.slots && exists k: nat :: LiveAt(s.slots[d], k) && s.slots[d][k].name == m && s.slots[d][k].nr == n
  }

  /** The name in slot k of directory d. */
  function NameIn(s: State, d: nat, k: nat): string {
    if d in s.slots && k < |s.slots[d]| then s.slots[d][k].name else ""
  }

  /**
   * What directory d has under the name m after n calls, by the calls alone; a call that removes an entry is taken to remove the
   * name that stood in its slot.
   */
  ghost function Entered(ss: seq<State>, es: seq<Event>, n: nat, d: nat, m: string): Option<nat>
    requires n <= |es| < |ss|
  {
    if n == 0 then
      if d == ROOT && (m == "." || m == "..") then Some(ROOT) else None
    else
      var before := Entered(ss, es, n - 1, d, m);
      match es[n - 1]
      case Create(e, name, nr) => if d == e && m == Cut(name) then Some(nr) else before
      case Link(e, name, i) => if d == e && m == Cut(name) then Some(i) else before
      case Mkdir(e, name, nr) =>
        if d == nr then (if m == "." then Some(nr) else if m == ".." then Some(e) else None)
        else if d == e && m == Cut(name) then Some(nr) else before
      case Unlink(e, k) => if d == e && m == NameIn(ss[n - 1], e, k) then None else before
      case Rmdir(e, k, i) => if d == i || (d == e && m == NameIn(ss[n - 1], e, k)) then None else before
      case _ => before
  }

  // ---------- what each call does to what is found ----------

  lemma PutFinds(s: State, s': State, d: nat, k: nat, name: string, nr: nat, m: string, n: nat)
    requires d in s.slots && OpenAt(s.slots[d], k) && nr != 0 && d in s'.slots && s'.slots[d] == PutAt(s.slots[d], k, name, nr)
    ensures Finds(s', d, m, n) <==> Finds(s, d, m, n) || (m == name && n == nr)
  {
    if Finds(s, d, m, n) {
      var j: nat :| LiveAt(s.slots[d], j) && s.slots[d][j].name == m && s.slots[d][j].nr == n;
      assert LiveAt(s'.slots[d], j) && s'.slots[d][j] == s.slots[d][j];
    }
    if m == name && n == nr {
      assert LiveAt(s'.slots[d], k);
    }
    if Finds(s', d, m, n) {
      var j: nat :| LiveAt(s'.slots[d], j) && s'.slots[d][j].name == m && s'.slots[d][j].nr == n;
      assert j != k ==> LiveAt(s.slots[d], j) && s.slots[d][j] == s'.slots[d][j];
    }
  }

  lemma RemovedFinds(s: State, s': State, d: nat, k: nat, m: string, n: nat)
    requires d in s.slots && LiveAt(s.slots[d], k) && NamesDistinct(s.slots[d])
    requires d in s'.slots && s'.slots[d] == WithoutEntry(s.slots[d], k)
    ensures Finds(s', d, m, n) <==> Finds(s, d, m, n) && m != s.slots[d][k].name
  {
    if Finds(s, d, m, n) && m != s.slots[d][k].name {
      var j: nat :| LiveAt(s.slots[d], j) && s.slots[d][j].name == m && s.slots[d][j].nr == n;
      assert LiveAt(s'.slots[d], j) && s'.slots[d][j] == s.slots[d][j];
    }
    if Finds(s', d, m, n) {
      var j: nat :| LiveAt(s'.slots[d], j) && s'.slots[d][j].name == m && s'.slots[d][j].nr == n;
      assert LiveAt(s.slots[d], j) && s.slots[d][j] == s'.slots[d][j];
    }
  }

  lemma SameFinds(s: State, s': State, d: nat, m: string, n: nat)
    requires d in s.slots <==> d in s'.slots
    requires d in s.slots ==> s'.slots[d] == s.slots[d]
    ensures Finds(s', d, m, n) <==> Finds(s, d, m, n)
  {}

  /** The two entries of a new directory, and no others. */
  lemma DotsFound(s: State, d: nat, e: nat, m: string, n: nat)
    requires d in s.slots && s.slots[d] == [Slot(d, "."), Slot(e, "..")] && d != 0 && e != 0
    ensures Finds(s, d, m, n) <==> (m == "." && n == d) || (m == ".." && n == e)
  {
    assert LiveAt(s.slots[d], 0) && LiveAt(s.slots[d], 1);
  }

  /** What a call does to what is found under one name. */
  ghost predicate StepFinds(s: State, e: Event, s': State, d: nat, m: string, n: nat) {
    var before := Finds(s, d, m, n);
    Finds(s', d, m, n) <==>
      match e
      case Create(x, name, nr) => if d == x && m == Cut(name) then n == nr else before
      case Link(x, name, i) => if d == x && m == Cut(name) then n == i else before
      case Mkdir(x, name, nr) =>
        if d == nr then (m == "." && n == nr) || (m == ".." && n == x)
        else if d == x && m == Cut(name) then n == nr else before
      case Unlink(x, k) => before && !(d == x && m == NameIn(s, x, k))
      case Rmdir(x, k, i) => before && d != i && !(d == x && m == NameIn(s, x, k))
      case _ => before
  }

  lemma EachStepFinds(s: State, e: Event, s': State, d: nat, m: string, n: nat)
    requires Inv(s) && Step(s, e, s') && Careful(s, e)
    ensures StepFinds(s, e, s', d, m, n)
  {
    hide Tree, CountOk;
    assert DirOk(s, d);
    match e {
      case Create(x, name, nr) => EnteredFinds(s, x, name, nr, s', d, m, n);
      case Link(x, name, i) => LinkFinds(s, x, name, i, s', d, m, n);
      case Mkdir(x, name, nr) => MkdirFinds(s, x, name, nr, s', d, m, n);
      case Unlink(x, k) =>
        if d == x {
          RemovedFinds(s, s', d, k, m, n);
        } else {
          SameFinds(s, s', d, m, n);
        }
      case Rmdir(x, k, i) =>
        if d == x {
          RemovedFinds(s, s', d, k, m, n);
        } else if d != i {
          SameFinds(s, s', d, m, n);
        }
      case _ => SameFinds(s, s', d, m, n);
    }
  }

  lemma EnteredFinds(s: State, x: nat, name: string, nr: nat, s': State, d: nat, m: string, n: nat)
    requires Inv(s) && Step(s, Create(x, name, nr), s') && Careful(s, Create(x, name, nr))
    ensures StepFinds(s, Create(x, name, nr), s', d, m, n)
  {
    hide Tree, CountOk, DirOk;
    if d == x {
      PutFinds(s, s', d, FreeSlot(s.slots[d]), Cut(name), nr, m, n);
    } else {
      SameFinds(s, s', d, m, n);
    }
  }

  lemma LinkFinds(s: State, x: nat, name: string, i: nat, s': State, d: nat, m: string, n: nat)
    requires Inv(s) && Step(s, Link(x, name, i), s') && Careful(s, Link(x, name, i))
    ensures StepFinds(s, Link(x, name, i), s', d, m, n)
  {
    hide Tree, CountOk, DirOk;
    if d == x {
      PutFinds(s, s', d, FreeSlot(s.slots[d]), Cut(name), i, m, n);
    } else {
      SameFinds(s, s', d, m, n);
    }
  }

  lemma MkdirFinds(s: State, x: nat, name: string, nr: nat, s': State, d: nat, m: string, n: nat)
    requires Inv(s) && Step(s, Mkdir(x, name, nr), s') && Careful(s, Mkdir(x, name, nr))
    ensures StepFinds(s, Mkdir(x, name, nr), s', d, m, n)
  {
    hide Tree, CountOk;
    assert DirOk(s, x);
    if d == nr {
      DotsFound(s', d, x, m, n);
    } else if d == x {
      PutFinds(s, s', d, FreeSlot(s.slots[d]), Cut(name), nr, m, n);
    } else {
      SameFinds(s, s', d, m, n);
    }
  }

  /**
   * Over every run of careful calls from a new volume: a name leads to an inode exactly if the last call that entered the name
   * in that directory entered it for that inode, and neither the name nor the directory was removed since.
   */
  lemma {:induction false} RunFinds(ss: seq<State>, es: seq<Event>, n: nat, d: nat, m: string, i: nat)
    requires Run(ss, es) && n < |ss| && forall j | 0 <= j < n :: Careful(ss[j], es[j])
    ensures Finds(ss[n], d, m, i) <==> Entered(ss, es, n, d, m) == Some(i)
  {
    hide Inv, Step, Careful, Finds;
    if n == 0 {
      FreshFinds(d, m, i);
    } else {
      RunFinds(ss, es, n - 1, d, m, i);
      RunKeeps(ss, es, n - 1);
      assert Step(ss[n - 1], es[n - 1], ss[n]) && Careful(ss[n - 1], es[n - 1]);
      EachStepFinds(ss[n - 1], es[n - 1], ss[n], d, m, i);
    }
  }

  lemma FreshFinds(d: nat, m: string, i: nat)
    ensures Finds(Fresh(), d, m, i) <==> d == ROOT && (m == "." || m == "..") && i == ROOT
  {
    if d == ROOT {
      DotsFound(Fresh(), ROOT, ROOT, m, i);
    }
  }
}
