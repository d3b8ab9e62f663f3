/** kmalloc and kfree as steps of the kernel heap, and what holds over whole runs of them. */
module HeapRuns {
  import opened HeapBlocks
  import opened Heap
  import opened FiniteSets
  import opened Limits
  import opened Queues

  ghost predicate FreshPage(s: State, c: nat, p: nat)
    requires c < CLASSES && |s.free| == CLASSES
  {
    p !in s.used && s.free[c] == []
  }

  /** The first free block of class c lies in an arena that counts a free block. */
  ghost predicate HasBlock(s: State, c: nat)
    requires c < CLASSES && |s.free| == CLASSES
  {
    s.free[c] != [] && PageOf(s.free[c][0]) in s.arenas && s.arenas[PageOf(s.free[c][0])].Small?
    && s.arenas[PageOf(s.free[c][0])].count > 0
  }

  /** kmalloc(size) yields address a. */
  ghost predicate Malloc(s: State, size: nat, a: nat, s': State)
    requires |s.free| == CLASSES
  {
    if size > LARGEST then
      exists p: nat :: Interval(p, p + PagesFor(size)) !! s.used && a == p * PAGE_SIZE + HEADER && s' == Grabbed(s, p, size)
    else
      var c := ClassFor(size);
      if s.free[c] != [] then
        TakeStep(s, c, size, a, s')
      else
        exists p: nat :: FreshPage(s, c, p) && TakeStep(Refilled(s, c, p), c, size, a, s')
  }

  ghost predicate TakeStep(s: State, c: nat, size: nat, a: nat, s': State)
    requires c < CLASSES && |s.free| == CLASSES
  {
    HasBlock(s, c) && a == s.free[c][0] && s' == Taken(s, c, size)
  }

  /** kfree(a). */
  ghost predicate Free(s: State, a: nat, s': State)
    requires |s.free| == CLASSES
  {
    && a in s.live
    && PageOf(a) in s.arenas
    && if s.arenas[PageOf(a)].Large? then s' == Released(s, a) else
         && s.arenas[PageOf(a)].sizeClass < CLASSES
         && var r, p := Returned(s, a), PageOf(a);
            s' == if r.arenas[p].count == TotalBlocks(r.arenas[p].sizeClass) then Dissolved(r, p) else r
  }

  /** Somebody else takes or gives back kernel pages. */
  ghost predicate OthersTake(s: State, pages: set<nat>, s': State) {
    pages !! s.used && s' == s.(used := s.used + pages, others := s.others + pages)
  }

  ghost predicate OthersGive(s: State, pages: set<nat>, s': State) {
    pages <= s.others && s' == s.(used := s.used - pages, others := s.others - pages)
  }

  /** The new block was not out, is big enough, and nothing else about the blocks that are out changes. */
  lemma MallocKeeps(s: State, size: nat, a: nat, s': State)
    requires Inv(s) && Malloc(s, size, a, s')
    ensures Inv(s') && a !in s.live && s'.live == s.live[a := size] && s'.others == s.others
    ensures Out(s', a) && size <= Capacity(s', a)
  {
    hide PagesOk, ListOk, CountOk;
    if size > LARGEST {
      var p: nat :| Interval(p, p + PagesFor(size)) !! s.used && a == p * PAGE_SIZE + HEADER && s' == Grabbed(s, p, size);
      GrabbedKeeps(s, p, size);
    } else {
      var c := ClassFor(size);
      if s.free[c] != [] {
        TakenKeeps(s, c, size);
      } else {
        var p: nat :| FreshPage(s, c, p) && TakeStep(Refilled(s, c, p), c, size, a, s');
        RefilledBase(s, c, p);
        TakenKeeps(Refilled(s, c, p), c, size);
      }
    }
    assert a in s'.live;
  }

  lemma FreeKeeps(s: State, a: nat, s': State)
    requires Inv(s) && Free(s, a, s')
    ensures Inv(s') && s'.live == s.live - {a} && s'.others == s.others
  {
    hide PagesOk, ListOk, CountOk, LiveOk;
    var p: nat := PageOf(a);
    if s.arenas[p].Large? {
      ReleasedKeeps(s, a);
    } else {
      ReturnedKeeps(s, a);
      var r := Returned(s, a);
      assert CountOk(r, p);
      CountBound(r, p);
      if r.arenas[p].count == TotalBlocks(r.arenas[p].sizeClass) {
        DissolvedKeeps(r, p);
      }
    }
  }

  /** Every block that is out can be given back. */
  lemma FreePossible(s: State, a: nat)
    requires Inv(s) && a in s.live
    ensures exists s' :: Free(s, a, s')
  {
    hide PagesOk, ListOk, CountOk;
    assert Out(s, a);
    var p: nat := PageOf(a);
    if s.arenas[p].Large? {
      assert Free(s, a, Released(s, a));
    } else {
      ReturnedKeeps(s, a);
      var r := Returned(s, a);
      assert Free(s, a, if r.arenas[p].count == TotalBlocks(r.arenas[p].sizeClass) then Dissolved(r, p) else r);
    }
  }

  /** Blocks that are out do not overlap. */
  lemma LiveDisjoint(s: State, a: nat, b: nat)
    requires Inv(s) && a in s.live && b in s.live && a < b
    ensures Out(s, a) && a + Capacity(s, a) <= b
  {
    hide ListOk, CountOk;
    assert Out(s, a) && Out(s, b);
    var p: nat, q: nat := PageOf(a), PageOf(b);
    ExtentInArena(s, a);
    if p == q {
      if s.arenas[p].Small? {
        var c := s.arenas[p].sizeClass;
        var i :| 0 <= i < TotalBlocks(c) && a == Address(p, c, i);
        var j :| 0 <= j < TotalBlocks(c) && b == Address(p, c, j);
        if j < i {
          BlocksApart(p, c, j, i);
        }
        BlocksApart(p, c, i, j);
      }
    } else {
      assert p < q && p + Span(s.arenas[p]) <= q;
    }
  }

  /** A block lies on its arena's pages behind the header, and the heap owns those pages. */
  lemma ExtentInArena(s: State, a: nat)
    requires Inv(s) && a in s.live
    ensures Out(s, a)
    ensures var p := PageOf(a);
            && p * PAGE_SIZE + HEADER <= a
            && a + Capacity(s, a) <= (p + Span(s.arenas[p])) * PAGE_SIZE
            && Pages(p, s.arenas[p]) <= s.used - s.others
  {
    hide ListOk, CountOk;
    assert Out(s, a);
    var p: nat := PageOf(a);
    assert forall q | q in Pages(p, s.arenas[p]) :: q in Covered(s.arenas);
    if s.arenas[p].Small? {
      var c := s.arenas[p].sizeClass;
      var i :| 0 <= i < TotalBlocks(c) && a == Address(p, c, i);
      BlockInPage(p, c, i);
    }
  }

  /** The size of the smallest block that is big enough: a power of two from 16 to 1024, or whole pages behind a header. */
  function SmallestFit(size: nat): nat {
    if size <= 16 then 16 else if size <= 32 then 32 else if size <= 64 then 64 else if size <= 128 then 128
    else if size <= 256 then 256 else if size <= 512 then 512 else if size <= 1024 then 1024
    else (size + 16 + 4095) / 4096 * 4096 - 16
  }

  /** Some page is an arena of blocks of that size and has a free one. */
  ghost predicate Spare(s: State, size: nat) {
    exists p :: p in s.arenas && s.arenas[p].Small? && s.arenas[p].sizeClass < CLASSES
                && BlockSize(s.arenas[p].sizeClass) == SmallestFit(size) && s.arenas[p].count > 0
  }

  /** n pages from p on, which nobody was using, are marked. */
  ghost predicate TakesPages(s: State, s': State, p: nat, n: nat) {
    Interval(p, p + n) !! s.used && s'.used == s.used + Interval(p, p + n)
  }

  lemma SpareIsFree(s: State, c: nat)
    requires Base(s) && c < CLASSES
    ensures s.free[c] != [] <==> exists p :: p in s.arenas && s.arenas[p].Small? && s.arenas[p].sizeClass == c && s.arenas[p].count > 0
  {
    hide PagesOk, LiveOk;
    assert ListOk(s, c);
    if s.free[c] != [] {
      var a := s.free[c][0];
      var p: nat := PageOf(a);
      assert a in s.free[c] && CountOk(s, p);
      var i :| 0 <= i < TotalBlocks(c) && a == Address(p, c, i);
      assert i in FreePlaces(s.free[c], p, c);
    }
    if exists p :: p in s.arenas && s.arenas[p].Small? && s.arenas[p].sizeClass == c && s.arenas[p].count > 0 {
      var p: nat :| p in s.arenas && s.arenas[p].Small? && s.arenas[p].sizeClass == c && s.arenas[p].count > 0;
      assert CountOk(s, p) && FreePlaces(s.free[c], p, c) != {};
      var i :| i in FreePlaces(s.free[c], p, c);
      assert Address(p, c, i) in s.free[c];
    }
  }

  /** kmalloc is frugal: a block of the smallest size that fits, and no new page while such a block is spare. */
  lemma MallocFrugal(s: State, size: nat, a: nat, s': State)
    requires Inv(s) && Malloc(s, size, a, s')
    ensures Inv(s') && Out(s', a) && Capacity(s', a) == SmallestFit(size)
    ensures if size <= 1024 && Spare(s, size) then s'.used == s.used
            else TakesPages(s, s', PageOf(a), if size <= 1024 then 1 else (size + 16 + 4095) / 4096)
  {
    hide PagesOk, ListOk, CountOk, LiveOk;
    MallocKeeps(s, size, a, s');
    if size > LARGEST {
      var p: nat :| Interval(p, p + PagesFor(size)) !! s.used && a == p * PAGE_SIZE + HEADER && s' == Grabbed(s, p, size);
      PageOfLarge(p);
      assert PagesFor(size) == (size + 16 + 4095) / 4096;
    } else {
      var c := ClassFor(size);
      SpareIsFree(s, c);
      SizesDiffer(s, size);
      if s.free[c] != [] {
        var p, i := HeadOf(s, c);
      } else {
        var p: nat :| FreshPage(s, c, p) && TakeStep(Refilled(s, c, p), c, size, a, s');
        RefilledBase(s, c, p);
        var q, i := HeadOf(Refilled(s, c, p), c);
        PageBlocks(p, c);
        assert Interval(p, p + 1) == {p};
      }
    }
  }

  lemma SizesDiffer(s: State, size: nat)
    requires size <= LARGEST
    ensures BlockSize(ClassFor(size)) == SmallestFit(size)
    ensures forall c: nat | c < CLASSES :: BlockSize(c) == SmallestFit(size) <==> c == ClassFor(size)
  {}

  // ---------- nothing leaks ----------

  /** A small arena always has a block out. */
  lemma ArenaInUse(s: State, p: nat) returns (a: nat)
    requires Inv(s) && p in s.arenas
    ensures a in s.live && PageOf(a) == p
  {
    hide PagesOk, ListOk;
    assert CountOk(s, p) && NotFull(s, p);
    if s.arenas[p].Large? {
      a := p * PAGE_SIZE + HEADER;
      PageOfLarge(p);
    } else {
      var c := s.arenas[p].sizeClass;
      var i := MissingPlace(s.free[c], p, c);
      a := Address(p, c, i);
      BlockInPage(p, c, i);
    }
    assert Out(s, a);
  }

  lemma MissingPlace(list: seq<nat>, p: nat, c: nat) returns (i: nat)
    requires c < CLASSES && |FreePlaces(list, p, c)| < TotalBlocks(c)
    ensures i < TotalBlocks(c) && Address(p, c, i) !in list
  {
    IntervalSize(0, TotalBlocks(c));
    if Interval(0, TotalBlocks(c)) <= FreePlaces(list, p, c) {
      SubsetSize(Interval(0, TotalBlocks(c)), FreePlaces(list, p, c));
    }
    i :| i in Interval(0, TotalBlocks(c)) && i !in FreePlaces(list, p, c);
  }

  /** Once every block is given back the heap owns no page and the free lists are empty. */
  lemma AllFreed(s: State)
    requires Inv(s) && s.live == map[]
    ensures s.used == s.others && s.arenas == map[] && forall c | 0 <= c < CLASSES :: s.free[c] == []
  {
    hide CountOk, LiveOk;
    forall p | p in s.arenas
      ensures false
    {
      var a := ArenaInUse(s, p);
      assert false;
    }
    assert Covered(s.arenas) == {};
    forall c: nat | c < CLASSES
      ensures s.free[c] == []
    {
      assert ListOk(s, c);
      HasElement(s.free[c]);
    }
  }

  // ---------- kfree undoes kmalloc ----------

  lemma ReturnedTaken(s: State, c: nat, size: nat)
    requires Base(s) && c < CLASSES && s.free[c] != [] && size <= BlockSize(c)
    requires forall q: nat | q != PageOf(s.free[c][0]) :: NotFull(s, q)
    ensures var a := s.free[c][0];
            && PageOf(a) in s.arenas && s.arenas[PageOf(a)].Small? && s.arenas[PageOf(a)].count > 0
            && s.arenas[PageOf(a)].sizeClass == c && a !in s.live
            && Returned(Taken(s, c, size), a) == s
  {
    hide PagesOk, CountOk, ListOk, LiveOk;
    TakenKeeps(s, c, size);
    var p, i := HeadOf(s, c);
    var a, t := s.free[c][0], Taken(s, c, size);
    assert [a] + t.free[c] == s.free[c];
    assert t.live - {a} == s.live;
    assert Returned(t, a).arenas == s.arenas;
    assert Returned(t, a).free == s.free;
  }

  /** Giving back the block just handed out restores the whole heap: page map, arenas, free lists and their order. */
  lemma FreeUndoesMalloc(s: State, size: nat, a: nat, m: State, s': State)
    requires Inv(s) && Malloc(s, size, a, m) && Inv(m) && Free(m, a, s')
    ensures s' == s
  {
    hide PagesOk, CountOk, ListOk, LiveOk;
    if size > LARGEST {
      var p: nat :| Interval(p, p + PagesFor(size)) !! s.used && a == p * PAGE_SIZE + HEADER && m == Grabbed(s, p, size);
      GrabbedKeeps(s, p, size);
      PageOfLarge(p);
      LargeUndone(s, p, size);
    } else {
      var c := ClassFor(size);
      if s.free[c] != [] {
        ReturnedTaken(s, c, size);
        assert NotFull(s, PageOf(a));
      } else {
        var p: nat :| FreshPage(s, c, p) && TakeStep(Refilled(s, c, p), c, size, a, m);
        RefilledBase(s, c, p);
        ReturnedTaken(Refilled(s, c, p), c, size);
        RefillUndone(s, c, p);
      }
    }
  }

  lemma LargeUndone(s: State, p: nat, size: nat)
    requires Inv(s) && Interval(p, p + PagesFor(size)) !! s.used && p * PAGE_SIZE + HEADER !in s.live
    ensures PageOf(p * PAGE_SIZE + HEADER) == p
    ensures Released(Grabbed(s, p, size), p * PAGE_SIZE + HEADER) == s
  {
    hide ListOk, CountOk, LiveOk;
    PageOfLarge(p);
    var g, a := Grabbed(s, p, size), p * PAGE_SIZE + HEADER;
    NewPages(s, p, Large(PagesFor(size)), g) by {
      assert Interval(p, p + PagesFor(size)) == Pages(p, Large(PagesFor(size)));
    }
    assert g.used - Interval(p, p + PagesFor(size)) == s.used;
    assert g.arenas - {p} == s.arenas;
    assert g.live - {a} == s.live;
  }

  lemma RefillUndone(s: State, c: nat, p: nat)
    requires Inv(s) && c < CLASSES && FreshPage(s, c, p) && Base(Refilled(s, c, p))
    ensures Dissolved(Refilled(s, c, p), p) == s
  {
    hide ListOk, CountOk, LiveOk;
    var r := Refilled(s, c, p);
    NewPages(s, p, Small(c, TotalBlocks(c)), r) by {
      assert Pages(p, Small(c, TotalBlocks(c))) == {p};
    }
    DroppedPage(r, p, c);
    PageBlocks(p, c);
    var d := DropBlocks(r.free[c], p, c, TotalBlocks(c));
    assert forall a | a in r.free[c] :: PageOf(a) == p;
    HasElement(d);
    assert r.used - {p} == s.used;
    assert r.arenas - {p} == s.arenas;
    assert Dissolved(r, p).free == s.free;
  }

  // ---------- whole runs ----------

  datatype Event = Kmalloc(size: nat, a: nat) | Kfree(a: nat) | Take(pages: set<nat>) | Give(pages: set<nat>)

  /** The steps ask for no more than that the block they touch lies in an arena. */
  ghost predicate Step(s: State, e: Event, s': State) {
    |s.free| == CLASSES &&
    match e
    case Kmalloc(size, a) => Malloc(s, size, a, s')
    case Kfree(a) => Free(s, a, s')
    case Take(pages) => OthersTake(s, pages, s')
    case Give(pages) => OthersGive(s, pages, s')
  }

  lemma OthersKeep(s: State, pages: set<nat>, s': State)
    requires Inv(s) && (OthersTake(s, pages, s') || OthersGive(s, pages, s'))
    ensures Inv(s') && s'.live == s.live
  {
    forall c: nat | c < CLASSES
      ensures ListOk(s', c)
    {
      assert ListOk(s, c);
    }
    forall p: nat
      ensures CountOk(s', p) && NotFull(s', p)
    {
      assert CountOk(s, p) && NotFull(s, p);
    }
    assert LiveOk(s') by {
      forall a: nat
        ensures Out(s', a) <==> Out(s, a)
      {}
    }
  }

  lemma StepKeeps(s: State, e: Event, s': State)
    requires Inv(s) && Step(s, e, s')
    ensures Inv(s')
    ensures s'.others == match e
                         case Take(pages) => s.others + pages
                         case Give(pages) => s.others - pages
                         case _ => s.others
    ensures s'.live == match e
                       case Kmalloc(size, a) => s.live[a := size]
                       case Kfree(a) => s.live - {a}
                       case _ => s.live
  {
    hide Inv, Malloc, Free;
    match e {
      case Kmalloc(size, a) => MallocKeeps(s, size, a, s');
      case Kfree(a) => FreeKeeps(s, a, s');
      case Take(pages) => OthersKeep(s, pages, s');
      case Give(pages) => OthersKeep(s, pages, s');
    }
  }

  /** A heap that has nothing, with pages in use by others. */
  function Empty(others: set<nat>): State {
    State(others, others, map[], seq(CLASSES, _ => []), map[])
  }

  lemma EmptyInv(others: set<nat>)
    ensures Inv(Empty(others))
  {
    assert Covered(map[]) == {};
  }

  ghost predicate Run(ss: seq<State>, es: seq<Event>) {
    |ss| == |es| + 1 && forall n | 0 <= n < |es| :: Step(ss[n], es[n], ss[n + 1])
  }

  /** From an empty heap: whenever everything handed out has been given back, the page map is again that of the others. */
  lemma {:induction false} RunRestores(ss: seq<State>, es: seq<Event>, n: nat)
    requires Run(ss, es) && ss[0] == Empty(ss[0].others) && n < |ss|
    ensures Inv(ss[n])
    ensures ss[n].live == map[] ==> ss[n].used == ss[n].others
    ensures (forall k | 0 <= k < n :: es[k].Kmalloc? || es[k].Kfree?) ==> ss[n].others == ss[0].others
    decreases n
  {
    hide Inv, Step;
    if n > 0 {
      RunRestores(ss, es, n - 1);
      StepKeeps(ss[n - 1], es[n - 1], ss[n]);
    } else {
      EmptyInv(ss[0].others);
    }
    if ss[n].live == map[] {
      AllFreed(ss[n]);
    }
  }
}
