/** The kernel heap as a value: marked pages, arenas, free lists, and the blocks that are out. */
module Heap {
  import opened HeapBlocks
  import opened FiniteSets
  import opened Limits
  import opened Queues

  datatype Arena = Small(sizeClass: nat, count: nat) | Large(pages: nat)

  /** used are the marked kernel pages, others those of them that the heap does not own; a free list's first element is
      its front; live maps the blocks that are out to the sizes asked for. */
  datatype State = State(used: set<nat>, others: set<nat>, arenas: map<nat, Arena>, free: seq<seq<nat>>, live: map<nat, nat>)

  function Span(a: Arena): nat {
    if a.Small? then 1 else a.pages
  }

  ghost function Pages(p: nat, a: Arena): (s: set<nat>)
    ensures forall q: nat :: q in s <==> p <= q < p + Span(a)
  {
    Interval(p, p + Span(a))
  }

  /** The pages the heap owns. */
  ghost function Covered(arenas: map<nat, Arena>): set<nat> {
    set p, q | p in arenas && q in Pages(p, arenas[p]) :: q
  }

  /** The places of arena p's blocks that are on the free list of its class. */
  ghost function FreePlaces(list: seq<nat>, p: nat, c: nat): (s: set<nat>)
    requires c < CLASSES
    ensures s <= Interval(0, TotalBlocks(c))
  {
    set i | i in Interval(0, TotalBlocks(c)) && Address(p, c, i) in list
  }

  ghost predicate IsBlock(p: nat, c: nat, a: nat)
    requires c < CLASSES
  {
    exists i :: 0 <= i < TotalBlocks(c) && a == Address(p, c, i)
  }

  /** Everything on the free list of class c is a block of an arena of that class. */
  ghost predicate ListOk(s: State, c: nat)
    requires c < CLASSES && |s.free| == CLASSES
  {
    && NoDup(s.free[c])
    && forall a | a in s.free[c] ::
         PageOf(a) in s.arenas && s.arenas[PageOf(a)].Small? && s.arenas[PageOf(a)].sizeClass == c && IsBlock(PageOf(a), c, a)
  }

  /** A small arena's count is the number of its blocks on the free list. */
  ghost predicate CountOk(s: State, p: nat)
    requires |s.free| == CLASSES
  {
    p in s.arenas && s.arenas[p].Small? ==>
      && s.arenas[p].sizeClass < CLASSES
      && s.arenas[p].count == |FreePlaces(s.free[s.arenas[p].sizeClass], p, s.arenas[p].sizeClass)|
  }

  ghost predicate Apart(arenas: map<nat, Arena>) {
    forall p, q | p in arenas && q in arenas && p < q :: p + Span(arenas[p]) <= q
  }

  /** Block a is out: a block of a small arena that is not free, or the one block of a large arena. */
  ghost predicate Out(s: State, a: nat)
    requires |s.free| == CLASSES
  {
    && PageOf(a) in s.arenas
    && match s.arenas[PageOf(a)]
       case Small(c, _) => c < CLASSES && IsBlock(PageOf(a), c, a) && a !in s.free[c]
       case Large(_) => a == PageOf(a) * PAGE_SIZE + HEADER
  }

  /** How many bytes the block at a offers. */
  ghost function Capacity(s: State, a: nat): int
    requires |s.free| == CLASSES && Out(s, a)
  {
    match s.arenas[PageOf(a)]
    case Small(c, _) => BlockSize(c)
    case Large(n) => n * PAGE_SIZE - HEADER
  }

  ghost predicate LiveOk(s: State)
    requires |s.free| == CLASSES
  {
    && (forall a: nat :: a in s.live <==> Out(s, a))
    && (forall a: nat | a in s.live :: s.live[a] <= Capacity(s, a))
  }

  ghost predicate PagesOk(s: State) {
    && s.used == s.others + Covered(s.arenas) && s.others !! Covered(s.arenas)
    && Apart(s.arenas)
    && forall p | p in s.arenas :: Span(s.arenas[p]) > 0
  }

  ghost predicate Base(s: State) {
    && |s.free| == CLASSES
    && PagesOk(s)
    && (forall c: nat | c < CLASSES :: ListOk(s, c))
    && (forall p: nat :: CountOk(s, p))
    && LiveOk(s)
  }

  ghost predicate NotFull(s: State, p: nat) {
    p in s.arenas && s.arenas[p].Small? && s.arenas[p].sizeClass < CLASSES ==> s.arenas[p].count < TotalBlocks(s.arenas[p].sizeClass)
  }

  /** Between calls no small arena has all of its blocks free. */
  ghost predicate Inv(s: State) {
    Base(s) && forall p: nat :: NotFull(s, p)
  }

  // ---------- the operations ----------

  /** The loop that puts the first n blocks of page p on the front of a free list. */
  function PushBlocks(list: seq<nat>, p: nat, c: nat, n: nat): (r: seq<nat>)
    requires c < CLASSES && n <= TotalBlocks(c)
    ensures forall a :: a in r <==> a in list || exists i :: 0 <= i < n && a == Address(p, c, i)
  {
    if n == 0 then list else [Address(p, c, n - 1)] + PushBlocks(list, p, c, n - 1)
  }

  /** The loop that takes the first n blocks of page p out of a free list. */
  function DropBlocks(list: seq<nat>, p: nat, c: nat, n: nat): (r: seq<nat>)
    requires c < CLASSES && n <= TotalBlocks(c)
  {
    if n == 0 then list else Without(DropBlocks(list, p, c, n - 1), Address(p, c, n - 1))
  }

  /** Page p becomes an arena of class c with all blocks free. */
  function Refilled(s: State, c: nat, p: nat): State
    requires c < CLASSES && |s.free| == CLASSES
  {
    s.(used := s.used + {p}, arenas := s.arenas[p := Small(c, TotalBlocks(c))],
       free := s.free[c := PushBlocks(s.free[c], p, c, TotalBlocks(c))])
  }

  /** The first free block of class c is handed out. */
  function Taken(s: State, c: nat, size: nat): State
    requires c < CLASSES && |s.free| == CLASSES && s.free[c] != [] && PageOf(s.free[c][0]) in s.arenas
    requires s.arenas[PageOf(s.free[c][0])].Small? && s.arenas[PageOf(s.free[c][0])].count > 0
  {
    var a := s.free[c][0];
    s.(free := s.free[c := s.free[c][1..]],
       arenas := s.arenas[PageOf(a) := s.arenas[PageOf(a)].(count := s.arenas[PageOf(a)].count - 1)],
       live := s.live[a := size])
  }

  function Grabbed(s: State, p: nat, size: nat): State {
    s.(used := s.used + Interval(p, p + PagesFor(size)), arenas := s.arenas[p := Large(PagesFor(size))],
       live := s.live[p * PAGE_SIZE + HEADER := size])
  }

  function Returned(s: State, a: nat): State
    requires |s.free| == CLASSES && PageOf(a) in s.arenas && s.arenas[PageOf(a)].Small? && s.arenas[PageOf(a)].sizeClass < CLASSES
  {
    var c := s.arenas[PageOf(a)].sizeClass;
    s.(free := s.free[c := [a] + s.free[c]],
       arenas := s.arenas[PageOf(a) := s.arenas[PageOf(a)].(count := s.arenas[PageOf(a)].count + 1)],
       live := s.live - {a})
  }

  /** An arena whose blocks are all free is given back. */
  function Dissolved(s: State, p: nat): State
    requires |s.free| == CLASSES && p in s.arenas && s.arenas[p].Small? && s.arenas[p].sizeClass < CLASSES
  {
    var c := s.arenas[p].sizeClass;
    s.(used := s.used - {p}, arenas := s.arenas - {p}, free := s.free[c := DropBlocks(s.free[c], p, c, TotalBlocks(c))])
  }

  function Released(s: State, a: nat): State
    requires PageOf(a) in s.arenas && s.arenas[PageOf(a)].Large?
  {
    var p := PageOf(a);
    s.(used := s.used - Interval(p, p + s.arenas[p].pages), arenas := s.arenas - {p}, live := s.live - {a})
  }

  // ---------- taking a block ----------

  lemma FullPlaces(p: nat, c: nat, list: seq<nat>)
    requires c < CLASSES && forall i | 0 <= i < TotalBlocks(c) :: Address(p, c, i) in list
    ensures |FreePlaces(list, p, c)| == TotalBlocks(c)
  {
    IntervalSize(0, TotalBlocks(c));
    assert FreePlaces(list, p, c) == Interval(0, TotalBlocks(c));
  }

  lemma SamePlace(p: nat, c: nat, i: nat, q: nat, j: nat)
    requires c < CLASSES && i < TotalBlocks(c) && j < TotalBlocks(c)
    ensures Address(q, c, j) == Address(p, c, i) <==> q == p && j == i
  {
    BlockInPage(p, c, i);
    BlockInPage(q, c, j);
    if q == p && Address(q, c, j) == Address(p, c, i) {
      AddressInjective(p, c, i, j);
    }
  }

  /** One more block on the list is one more place of its arena, and of no other. */
  lemma PlacesWith(list: seq<nat>, q: nat, c: nat, p: nat, i: nat)
    requires c < CLASSES && i < TotalBlocks(c) && Address(p, c, i) !in list
    ensures FreePlaces([Address(p, c, i)] + list, q, c) == FreePlaces(list, q, c) + (if q == p then {i} else {})
    ensures q == p ==> i !in FreePlaces(list, q, c)
  {
    var more := [Address(p, c, i)] + list;
    forall j: nat | j < TotalBlocks(c)
      ensures Address(q, c, j) in more <==> Address(q, c, j) in list || (q == p && j == i)
    {
      SamePlace(p, c, i, q, j);
    }
  }

  lemma {:induction false} PushedDistinct(list: seq<nat>, p: nat, c: nat, n: nat)
    requires c < CLASSES && n <= TotalBlocks(c) && NoDup(list) && forall a | a in list :: PageOf(a) != p
    ensures NoDup(PushBlocks(list, p, c, n))
  {
    if n > 0 {
      PushedDistinct(list, p, c, n - 1);
      BlockInPage(p, c, n - 1);
      forall i: nat | i < n - 1
        ensures Address(p, c, i) != Address(p, c, n - 1)
      {
        BlocksApart(p, c, i, n - 1);
      }
      NoDupPush(Address(p, c, n - 1), PushBlocks(list, p, c, n - 1));
    }
  }

  lemma PageBlocks(p: nat, c: nat)
    requires c < CLASSES
    ensures forall a: nat | IsBlock(p, c, a) :: PageOf(a) == p
    ensures forall i: nat | i < TotalBlocks(c) :: PageOf(Address(p, c, i)) == p && IsBlock(p, c, Address(p, c, i))
  {
    forall i: nat | i < TotalBlocks(c)
      ensures PageOf(Address(p, c, i)) == p && IsBlock(p, c, Address(p, c, i))
    {
      BlockInPage(p, c, i);
    }
  }

  /** New pages for the heap that nobody was using. */
  lemma NewPages(s: State, p: nat, a: Arena, s': State)
    requires PagesOk(s) && Span(a) > 0 && Pages(p, a) !! s.used
    requires s'.used == s.used + Pages(p, a) && s'.others == s.others && s'.arenas == s.arenas[p := a]
    ensures p !in s.arenas && PagesOk(s')
  {
    assert p in Pages(p, a);
    forall q, r: nat | q in s.arenas && q <= r < q + Span(s.arenas[q])
      ensures r in Covered(s.arenas)
    {
      assert r in Pages(q, s.arenas[q]);
    }
    forall q | q in s.arenas
      ensures q + Span(s.arenas[q]) <= p || p + Span(a) <= q
    {
      assert q in Covered(s.arenas) && q !in Pages(p, a);
      assert p !in Covered(s.arenas);
    }
    assert Covered(s'.arenas) == Covered(s.arenas) + Pages(p, a) by {
      forall q | q in Covered(s.arenas) + Pages(p, a)
        ensures q in Covered(s'.arenas)
      {
        if q in Pages(p, a) {
          assert s'.arenas[p] == a;
        } else {
          var r :| r in s.arenas && q in Pages(r, s.arenas[r]);
          assert r in s'.arenas && s'.arenas[r] == s.arenas[r];
        }
      }
    }
  }

  lemma PageOfLarge(p: nat)
    ensures PageOf(p * PAGE_SIZE + HEADER) == p
  {}

  /** A page that becomes an arena of free blocks: nothing is out that was not before. */
  lemma RefilledLists(s: State, c: nat, p: nat)
    requires Base(s) && c < CLASSES && p !in s.arenas
    ensures forall d: nat | d < CLASSES :: ListOk(Refilled(s, c, p), d)
  {
    hide PagesOk, CountOk, LiveOk, IsBlock;
    var s' := Refilled(s, c, p);
    PushedDistinct(s.free[c], p, c, TotalBlocks(c)) by {
      assert ListOk(s, c);
    }
    PageBlocks(p, c);
    forall d: nat | d < CLASSES
      ensures ListOk(s', d)
    {
      assert ListOk(s, d);
    }
  }

  lemma RefilledCounts(s: State, c: nat, p: nat)
    requires Base(s) && c < CLASSES && p !in s.arenas
    ensures forall q: nat :: CountOk(Refilled(s, c, p), q)
  {
    hide PagesOk, LiveOk, ListOk;
    var s' := Refilled(s, c, p);
    PageBlocks(p, c);
    forall q: nat
      ensures CountOk(s', q)
    {
      assert CountOk(s, q);
      if q == p {
        FullPlaces(p, c, s'.free[c]);
      } else if q in s.arenas && s.arenas[q].Small? && s.arenas[q].sizeClass == c {
        PageBlocks(q, c);
        assert FreePlaces(s'.free[c], q, c) == FreePlaces(s.free[c], q, c);
      }
    }
  }

  lemma RefilledLive(s: State, c: nat, p: nat)
    requires Base(s) && c < CLASSES && p !in s.arenas
    ensures LiveOk(Refilled(s, c, p))
  {
    hide PagesOk, CountOk, ListOk;
    var s' := Refilled(s, c, p);
    PageBlocks(p, c);
    forall a: nat
      ensures Out(s', a) <==> Out(s, a)
      ensures Out(s, a) ==> Capacity(s', a) == Capacity(s, a)
    {}
  }

  lemma RefilledBase(s: State, c: nat, p: nat)
    requires Inv(s) && c < CLASSES && p !in s.used
    ensures Base(Refilled(s, c, p))
    ensures forall q: nat | q != p :: NotFull(Refilled(s, c, p), q)
    ensures var s' := Refilled(s, c, p); s'.free[c] != [] && (s.free[c] == [] ==> PageOf(s'.free[c][0]) == p)
  {
    hide ListOk, CountOk, LiveOk, PagesOk;
    NewPages(s, p, Small(c, TotalBlocks(c)), Refilled(s, c, p)) by {
      assert Pages(p, Small(c, TotalBlocks(c))) == {p};
    }
    RefilledLists(s, c, p);
    RefilledCounts(s, c, p);
    RefilledLive(s, c, p);
    PageBlocks(p, c);
    assert Address(p, c, 0) in Refilled(s, c, p).free[c];
    forall q: nat | q != p
      ensures NotFull(Refilled(s, c, p), q)
    {
      assert NotFull(s, q);
    }
  }

  /** Pages, spans and classes stay as they are when only counts change. */
  lemma SameSpans(s: State, s': State)
    requires PagesOk(s) && s'.used == s.used && s'.others == s.others
    requires forall p :: p in s'.arenas <==> p in s.arenas
    requires forall p | p in s.arenas :: Span(s'.arenas[p]) == Span(s.arenas[p])
    ensures PagesOk(s')
  {
    assert forall p | p in s.arenas :: Pages(p, s'.arenas[p]) == Pages(p, s.arenas[p]);
    assert Covered(s'.arenas) == Covered(s.arenas);
  }

  /** The first block of a free list: its arena, its place, and the arena's count. */
  lemma HeadOf(s: State, c: nat) returns (p: nat, i: nat)
    requires Base(s) && c < CLASSES && s.free[c] != []
    ensures p == PageOf(s.free[c][0]) && i < TotalBlocks(c) && s.free[c][0] == Address(p, c, i)
    ensures p in s.arenas && s.arenas[p].Small? && s.arenas[p].sizeClass == c && s.arenas[p].count > 0
  {
    var a := s.free[c][0];
    p := PageOf(a);
    assert ListOk(s, c) && a in s.free[c];
    i :| 0 <= i < TotalBlocks(c) && a == Address(p, c, i);
    assert CountOk(s, p) && i in FreePlaces(s.free[c], p, c);
  }

  lemma TakenLists(s: State, c: nat, size: nat, p: nat, i: nat)
    requires Base(s) && c < CLASSES && s.free[c] != [] && s.free[c][0] == Address(p, c, i) && p == PageOf(s.free[c][0])
    requires p in s.arenas && s.arenas[p].Small? && s.arenas[p].sizeClass == c && s.arenas[p].count > 0
    ensures forall d: nat | d < CLASSES :: ListOk(Taken(s, c, size), d)
  {
    hide PagesOk, CountOk, LiveOk, IsBlock;
    forall d: nat | d < CLASSES
      ensures ListOk(Taken(s, c, size), d)
    {
      assert ListOk(s, d);
    }
  }

  lemma TakenCounts(s: State, c: nat, size: nat, p: nat, i: nat, q: nat)
    requires Base(s) && c < CLASSES && s.free[c] != [] && s.free[c][0] == Address(p, c, i) && p == PageOf(s.free[c][0])
    requires i < TotalBlocks(c)
    requires p in s.arenas && s.arenas[p].Small? && s.arenas[p].sizeClass == c && s.arenas[p].count > 0
    ensures CountOk(Taken(s, c, size), q)
  {
    hide PagesOk, LiveOk;
    var s' := Taken(s, c, size);
    assert CountOk(s, q) && ListOk(s, c);
    assert s.free[c][0] !in s'.free[c];
    if q in s.arenas && s.arenas[q].Small? && s.arenas[q].sizeClass == c {
      assert s.free[c] == [Address(p, c, i)] + s'.free[c];
      PlacesWith(s'.free[c], q, c, p, i);
    }
  }

  lemma TakenLive(s: State, c: nat, size: nat, p: nat, i: nat)
    requires Base(s) && c < CLASSES && s.free[c] != [] && s.free[c][0] == Address(p, c, i) && p == PageOf(s.free[c][0])
    requires i < TotalBlocks(c) && size <= BlockSize(c)
    requires p in s.arenas && s.arenas[p].Small? && s.arenas[p].sizeClass == c && s.arenas[p].count > 0
    ensures LiveOk(Taken(s, c, size)) && s.free[c][0] !in s.live
  {
    hide PagesOk, CountOk;
    var s', b := Taken(s, c, size), s.free[c][0];
    assert ListOk(s, c);
    PageBlocks(p, c);
    assert IsBlock(p, c, b);
    forall a: nat
      ensures Out(s', a) <==> Out(s, a) || a == b
      ensures Out(s, a) ==> Capacity(s', a) == Capacity(s, a)
    {
      assert forall d: nat | d < CLASSES :: ListOk(s, d);
    }
  }

  /** Handing out the first free block leaves a heap in order, with the block out. */
  lemma TakenKeeps(s: State, c: nat, size: nat)
    requires Base(s) && c < CLASSES && s.free[c] != [] && size <= BlockSize(c)
    requires forall q: nat | q != PageOf(s.free[c][0]) :: NotFull(s, q)
    ensures PageOf(s.free[c][0]) in s.arenas && s.arenas[PageOf(s.free[c][0])].Small?
    ensures s.arenas[PageOf(s.free[c][0])].count > 0
    ensures Inv(Taken(s, c, size)) && s.free[c][0] !in s.live
  {
    hide PagesOk, ListOk, CountOk, LiveOk;
    var p, i := HeadOf(s, c);
    SameSpans(s, Taken(s, c, size));
    TakenLists(s, c, size, p, i);
    forall q: nat
      ensures CountOk(Taken(s, c, size), q) && NotFull(Taken(s, c, size), q)
    {
      TakenCounts(s, c, size, p, i, q);
      CountBound(s, q);
      if q != p {
        assert NotFull(s, q);
      }
    }
    TakenLive(s, c, size, p, i);
  }

  lemma CountBound(s: State, p: nat)
    requires |s.free| == CLASSES && CountOk(s, p)
    ensures p in s.arenas && s.arenas[p].Small? ==> s.arenas[p].sizeClass < CLASSES && s.arenas[p].count <= TotalBlocks(s.arenas[p].sizeClass)
  {
    if p in s.arenas && s.arenas[p].Small? {
      var c := s.arenas[p].sizeClass;
      IntervalSize(0, TotalBlocks(c));
      SubsetSize(FreePlaces(s.free[c], p, c), Interval(0, TotalBlocks(c)));
    }
  }

  /** kmalloc for more than a kilobyte: a run of pages nobody was using. */
  lemma GrabbedKeeps(s: State, p: nat, size: nat)
    requires Inv(s) && Interval(p, p + PagesFor(size)) !! s.used
    ensures Inv(Grabbed(s, p, size)) && p * PAGE_SIZE + HEADER !in s.live
  {
    hide ListOk, CountOk, LiveOk, PagesOk;
    var s' := Grabbed(s, p, size);
    assert Interval(p, p + PagesFor(size)) == Pages(p, Large(PagesFor(size)));
    NewPages(s, p, Large(PagesFor(size)), s');
    forall d: nat | d < CLASSES
      ensures ListOk(s', d)
    {
      GrabbedList(s, p, size, d);
    }
    forall q: nat
      ensures CountOk(s', q) && NotFull(s', q)
    {
      assert CountOk(s, q) && NotFull(s, q);
      GrabbedCount(s, p, size, q);
    }
    GrabbedLive(s, p, size);
  }

  lemma GrabbedList(s: State, p: nat, size: nat, d: nat)
    requires Base(s) && p !in s.arenas && d < CLASSES
    ensures ListOk(Grabbed(s, p, size), d)
  {
    assert ListOk(s, d);
  }

  lemma GrabbedCount(s: State, p: nat, size: nat, q: nat)
    requires Base(s) && p !in s.arenas
    ensures CountOk(Grabbed(s, p, size), q)
  {
    assert CountOk(s, q);
  }

  lemma GrabbedLive(s: State, p: nat, size: nat)
    requires Base(s) && p !in s.arenas
    ensures LiveOk(Grabbed(s, p, size)) && p * PAGE_SIZE + HEADER !in s.live
  {
    hide PagesOk, CountOk, ListOk;
    var s', b := Grabbed(s, p, size), p * PAGE_SIZE + HEADER;
    PageOfLarge(p);
    forall a: nat
      ensures Out(s', a) <==> Out(s, a) || a == b
      ensures Out(s, a) ==> Capacity(s', a) == Capacity(s, a)
    {}
  }

  // ---------- giving a block back ----------

  /** The place of a small block that is out. */
  lemma PlaceOf(s: State, a: nat) returns (i: nat)
    requires Base(s) && a in s.live && s.arenas[PageOf(a)].Small?
    ensures PageOf(a) in s.arenas && s.arenas[PageOf(a)].sizeClass < CLASSES && i < TotalBlocks(s.arenas[PageOf(a)].sizeClass)
    ensures a == Address(PageOf(a), s.arenas[PageOf(a)].sizeClass, i)
    ensures forall d: nat | d < CLASSES :: a !in s.free[d]
  {
    assert Out(s, a);
    var p, c := PageOf(a), s.arenas[PageOf(a)].sizeClass;
    i :| 0 <= i < TotalBlocks(c) && a == Address(p, c, i);
    forall d: nat | d < CLASSES
      ensures a !in s.free[d]
    {
      assert ListOk(s, d);
    }
  }

  lemma ReturnedCounts(s: State, a: nat, i: nat, q: nat)
    requires Base(s) && PageOf(a) in s.arenas && s.arenas[PageOf(a)].Small? && s.arenas[PageOf(a)].sizeClass < CLASSES
    requires i < TotalBlocks(s.arenas[PageOf(a)].sizeClass) && a == Address(PageOf(a), s.arenas[PageOf(a)].sizeClass, i)
    requires a !in s.free[s.arenas[PageOf(a)].sizeClass]
    ensures CountOk(Returned(s, a), q)
  {
    hide PagesOk, LiveOk, ListOk;
    var s', p, c := Returned(s, a), PageOf(a), s.arenas[PageOf(a)].sizeClass;
    assert CountOk(s, q);
    if q in s.arenas && s.arenas[q].Small? && s.arenas[q].sizeClass == c {
      PlacesWith(s.free[c], q, c, p, i);
    }
  }

  lemma ReturnedLive(s: State, a: nat, i: nat)
    requires Base(s) && PageOf(a) in s.arenas && s.arenas[PageOf(a)].Small? && s.arenas[PageOf(a)].sizeClass < CLASSES
    requires i < TotalBlocks(s.arenas[PageOf(a)].sizeClass) && a == Address(PageOf(a), s.arenas[PageOf(a)].sizeClass, i)
    requires a in s.live
    ensures LiveOk(Returned(s, a))
  {
    hide PagesOk, CountOk, ListOk;
    var s', c := Returned(s, a), s.arenas[PageOf(a)].sizeClass;
    assert forall b :: b in s'.free[c] <==> b in s.free[c] || b == a;
    forall b: nat
      ensures Out(s', b) <==> Out(s, b) && b != a
      ensures Out(s', b) ==> Capacity(s', b) == Capacity(s, b)
    {}
  }

  /** Putting a block on its free list; only its own arena can become full by it. */
  lemma ReturnedKeeps(s: State, a: nat)
    requires Inv(s) && a in s.live && PageOf(a) in s.arenas && s.arenas[PageOf(a)].Small?
    ensures s.arenas[PageOf(a)].sizeClass < CLASSES && Base(Returned(s, a))
    ensures forall q: nat | q != PageOf(a) :: NotFull(Returned(s, a), q)
  {
    hide PagesOk, CountOk, LiveOk, ListOk;
    var i := PlaceOf(s, a);
    var s', p, c := Returned(s, a), PageOf(a), s.arenas[PageOf(a)].sizeClass;
    SameSpans(s, s');
    PageBlocks(p, c);
    forall d: nat | d < CLASSES
      ensures ListOk(s', d)
    {
      ReturnedList(s, a, d);
    }
    forall q: nat
      ensures CountOk(s', q)
    {
      ReturnedCounts(s, a, i, q);
    }
    forall q: nat | q != p
      ensures NotFull(s', q)
    {
      assert NotFull(s, q);
    }
    ReturnedLive(s, a, i);
  }

  lemma ReturnedList(s: State, a: nat, d: nat)
    requires Base(s) && PageOf(a) in s.arenas && s.arenas[PageOf(a)].Small? && s.arenas[PageOf(a)].sizeClass < CLASSES
    requires IsBlock(PageOf(a), s.arenas[PageOf(a)].sizeClass, a) && a !in s.free[s.arenas[PageOf(a)].sizeClass] && d < CLASSES
    ensures ListOk(Returned(s, a), d)
  {
    assert ListOk(s, d);
    if d == s.arenas[PageOf(a)].sizeClass {
      NoDupPush(a, s.free[d]);
    }
  }

  // ---------- giving pages back ----------

  /** Pages of one arena leave the heap. */
  lemma LostPages(s: State, p: nat, s': State)
    requires PagesOk(s) && p in s.arenas
    requires s'.used == s.used - Pages(p, s.arenas[p]) && s'.others == s.others && s'.arenas == s.arenas - {p}
    ensures PagesOk(s')
  {
    forall q, r: nat | q in s.arenas && q != p && r in Pages(q, s.arenas[q])
      ensures r !in Pages(p, s.arenas[p])
    {}
    forall r | r in Covered(s.arenas)
      ensures r in Covered(s'.arenas) || r in Pages(p, s.arenas[p])
    {
      var q :| q in s.arenas && r in Pages(q, s.arenas[q]);
      if q != p {
        assert q in s'.arenas && r in Pages(q, s'.arenas[q]);
      }
    }
    assert forall r | r in Covered(s'.arenas) :: r in Covered(s.arenas) && r !in Pages(p, s.arenas[p]);
    assert forall r | r in Pages(p, s.arenas[p]) :: r in Covered(s.arenas);
  }

  lemma {:induction false} DroppedBlocks(list: seq<nat>, p: nat, c: nat, n: nat)
    requires c < CLASSES && n <= TotalBlocks(c) && NoDup(list)
    ensures NoDup(DropBlocks(list, p, c, n))
    ensures forall a :: a in DropBlocks(list, p, c, n) <==> a in list && forall i: nat | i < n :: a != Address(p, c, i)
  {
    if n > 0 {
      DroppedBlocks(list, p, c, n - 1);
      var r, b := DropBlocks(list, p, c, n - 1), Address(p, c, n - 1);
      WithoutNoDup(r, b);
      forall a
        ensures a in Without(r, b) <==> a in list && forall i: nat | i < n :: a != Address(p, c, i)
      {
        assert a in Without(r, b) <==> a in r && a != b;
      }
    }
  }

  /** Dropping all blocks of page p leaves exactly the blocks on other pages. */
  lemma DroppedPage(s: State, p: nat, c: nat)
    requires Base(s) && c < CLASSES
    requires p in s.arenas && s.arenas[p].Small? && s.arenas[p].sizeClass == c
    ensures var r := DropBlocks(s.free[c], p, c, TotalBlocks(c));
            NoDup(r) && forall a :: a in r <==> a in s.free[c] && PageOf(a) != p
  {
    assert ListOk(s, c);
    DroppedBlocks(s.free[c], p, c, TotalBlocks(c));
    PageBlocks(p, c);
  }

  lemma DissolvedCounts(s: State, p: nat, q: nat)
    requires Base(s) && p in s.arenas && s.arenas[p].Small? && s.arenas[p].sizeClass < CLASSES
    ensures CountOk(Dissolved(s, p), q)
  {
    hide PagesOk, LiveOk, ListOk;
    var s', c := Dissolved(s, p), s.arenas[p].sizeClass;
    DroppedPage(s, p, c);
    assert CountOk(s, q);
    if q in s.arenas && q != p && s.arenas[q].Small? && s.arenas[q].sizeClass == c {
      PageBlocks(q, c);
      assert FreePlaces(s'.free[c], q, c) == FreePlaces(s.free[c], q, c);
    }
  }

  /** A full count means that every block of the arena is on the free list. */
  lemma FullMeansFree(s: State, p: nat, a: nat)
    requires Base(s) && p in s.arenas && s.arenas[p].Small? && s.arenas[p].sizeClass < CLASSES
    requires s.arenas[p].count == TotalBlocks(s.arenas[p].sizeClass) && IsBlock(p, s.arenas[p].sizeClass, a)
    ensures a in s.free[s.arenas[p].sizeClass]
  {
    var c := s.arenas[p].sizeClass;
    assert CountOk(s, p);
    IntervalSize(0, TotalBlocks(c));
    SameSize(FreePlaces(s.free[c], p, c), Interval(0, TotalBlocks(c)));
    var i :| 0 <= i < TotalBlocks(c) && a == Address(p, c, i);
    assert i in FreePlaces(s.free[c], p, c);
  }

  lemma SameSize(a: set<nat>, b: set<nat>)
    requires a <= b && |a| == |b|
    ensures a == b
  {
    if b - a != {} {
      var x :| x in b - a;
      SubsetSize(a, b - {x});
    }
  }

  lemma DissolvedLive(s: State, p: nat)
    requires Base(s) && p in s.arenas && s.arenas[p].Small? && s.arenas[p].sizeClass < CLASSES
    requires s.arenas[p].count == TotalBlocks(s.arenas[p].sizeClass)
    ensures LiveOk(Dissolved(s, p))
  {
    hide PagesOk, CountOk, ListOk;
    var s', c := Dissolved(s, p), s.arenas[p].sizeClass;
    DroppedPage(s, p, c);
    forall a: nat
      ensures Out(s', a) <==> Out(s, a)
      ensures Out(s, a) ==> Capacity(s', a) == Capacity(s, a)
    {
      if PageOf(a) == p && IsBlock(p, c, a) {
        FullMeansFree(s, p, a);
      }
    }
  }

  /** An arena whose blocks are all free gives its page back. */
  lemma DissolvedKeeps(s: State, p: nat)
    requires Base(s) && p in s.arenas && s.arenas[p].Small? && s.arenas[p].sizeClass < CLASSES
    requires s.arenas[p].count == TotalBlocks(s.arenas[p].sizeClass)
    requires forall q: nat | q != p :: NotFull(s, q)
    ensures Inv(Dissolved(s, p))
  {
    hide PagesOk, CountOk, LiveOk, ListOk;
    var s', c := Dissolved(s, p), s.arenas[p].sizeClass;
    assert Pages(p, s.arenas[p]) == {p};
    LostPages(s, p, s');
    forall d: nat | d < CLASSES
      ensures ListOk(s', d)
    {
      DissolvedList(s, p, d);
    }
    forall q: nat
      ensures CountOk(s', q) && NotFull(s', q)
    {
      DissolvedCounts(s, p, q);
      if q != p {
        assert NotFull(s, q);
      }
    }
    DissolvedLive(s, p);
  }

  lemma DissolvedList(s: State, p: nat, d: nat)
    requires Base(s) && p in s.arenas && s.arenas[p].Small? && s.arenas[p].sizeClass < CLASSES && d < CLASSES
    ensures ListOk(Dissolved(s, p), d)
  {
    assert ListOk(s, d);
    DroppedPage(s, p, s.arenas[p].sizeClass);
  }

  /** kfree of a large block. */
  lemma ReleasedKeeps(s: State, a: nat)
    requires Inv(s) && a in s.live && PageOf(a) in s.arenas && s.arenas[PageOf(a)].Large?
    ensures Inv(Released(s, a)) && a == PageOf(a) * PAGE_SIZE + HEADER
  {
    hide PagesOk, CountOk, LiveOk, ListOk;
    var s', p := Released(s, a), PageOf(a);
    assert Interval(p, p + s.arenas[p].pages) == Pages(p, s.arenas[p]);
    LostPages(s, p, s');
    forall d: nat | d < CLASSES
      ensures ListOk(s', d)
    {
      ReleasedList(s, a, d);
    }
    forall q: nat
      ensures CountOk(s', q) && NotFull(s', q)
    {
      ReleasedCount(s, a, q);
      assert NotFull(s, q);
    }
    ReleasedLive(s, a);
  }

  lemma ReleasedList(s: State, a: nat, d: nat)
    requires Base(s) && PageOf(a) in s.arenas && s.arenas[PageOf(a)].Large? && d < CLASSES
    ensures ListOk(Released(s, a), d)
  {
    assert ListOk(s, d);
  }

  lemma ReleasedCount(s: State, a: nat, q: nat)
    requires Base(s) && PageOf(a) in s.arenas && s.arenas[PageOf(a)].Large?
    ensures CountOk(Released(s, a), q)
  {
    assert CountOk(s, q);
  }

  lemma ReleasedLive(s: State, a: nat)
    requires Base(s) && a in s.live && PageOf(a) in s.arenas && s.arenas[PageOf(a)].Large?
    ensures LiveOk(Released(s, a)) && a == PageOf(a) * PAGE_SIZE + HEADER
  {
    hide PagesOk, CountOk, ListOk;
    var s' := Released(s, a);
    assert Out(s, a);
    forall b: nat
      ensures Out(s', b) <==> Out(s, b) && b != a
      ensures Out(s', b) ==> Capacity(s', b) == Capacity(s, b)
    {}
  }
}
