/** kmalloc and kfree changing the kernel page map, the arenas and the seven free lists in place. */
module KernelHeap {
  import opened Bitmaps
  import opened FiniteSets
  import opened HeapBlocks
  import opened Heap
  import opened HeapRuns
  import opened Limits
  import opened Options
  import opened Queues

  /** The pages marked in a map whose first bit stands for page offset. */
  ghost function Marked(bits: seq<bv8>, offset: nat): (s: set<nat>)
    ensures forall q: nat :: q in s <==> offset <= q < offset + 8 * |bits| && Bit(bits, q - offset)
  {
    set q | q in Interval(offset, MapEnd(bits, offset)) && Bit(bits, q - offset)
  }

  ghost function MapEnd(bits: seq<bv8>, offset: nat): nat {
    offset + 8 * |bits|
  }

  ghost predicate RunFree(used: set<nat>, p: nat, count: nat) {
    Interval(p, p + count) !! used
  }

  /** No run of count pages between low and high is free. */
  ghost predicate NoRun(used: set<nat>, low: nat, high: int, count: nat) {
    forall p: nat | low <= p && p + count <= high :: !RunFree(used, p, count)
  }

  lemma RunMarked(bits: seq<bv8>, offset: nat, p: nat, count: nat)
    requires offset <= p
    ensures FreeRun(bits, p - offset, count) ==> Interval(p, p + count) !! Marked(bits, offset)
    ensures p + count <= offset + 8 * |bits| && Interval(p, p + count) !! Marked(bits, offset) ==> FreeRun(bits, p - offset, count)
  {
    if p + count <= offset + 8 * |bits| && Interval(p, p + count) !! Marked(bits, offset) {
      forall i: nat | p - offset <= i < p - offset + count
        ensures !Bit(bits, i)
      {
        assert offset + i in Interval(p, p + count);
      }
    }
  }

  lemma MarkedLess(before: seq<bv8>, after: seq<bv8>, offset: nat, q: nat)
    requires offset <= q && OneBitChanged(before, after, q - offset, false)
    ensures Marked(after, offset) == Marked(before, offset) - {q}
  {
    forall r: nat | offset <= r < offset + 8 * |before|
      ensures r in Marked(after, offset) <==> r in Marked(before, offset) && r != q
    {
      assert Bit(after, r - offset) == (if r == q then false else Bit(before, r - offset));
    }
  }

  class Allocator {
    const pageMap: Bitmap
    var free: seq<seq<nat>>
    var arenas: map<nat, Arena>
    /** Pages marked by other users of the page map, and the blocks that are out. */
    ghost var others: set<nat>
    ghost var live: map<nat, nat>

    ghost function Used(): set<nat>
      requires pageMap.Valid()
      reads pageMap.bits
    {
      Marked(pageMap.Contents(), pageMap.offset)
    }

    ghost function St(): State
      requires pageMap.Valid()
      reads this, pageMap.bits
    {
      State(Used(), others, arenas, free, live)
    }

    ghost predicate Valid()
      reads this, pageMap.bits
    {
      pageMap.Valid() && Inv(St())
    }

    /** An empty heap over a page map in which others have marked pages already. */
    constructor (pageMap: Bitmap)
      requires pageMap.Valid()
      ensures Valid() && this.pageMap == pageMap
      ensures live == map[] && others == Used()
    {
      this.pageMap := pageMap;
      free := seq(CLASSES, i => []);
      arenas, live := map[], map[];
      others := Marked(pageMap.Contents(), pageMap.offset);
      new;
    }

    /** alloc_kpage: the first run of count free pages; None where the kernel stops. */
    method AllocPages(count: nat) returns (p: Option<nat>)
      requires pageMap.Valid() && count > 0
      modifies pageMap.bits
      ensures p.Some? ==> Interval(p.value, p.value + count) !! old(Used()) && Used() == old(Used()) + Interval(p.value, p.value + count)
      ensures p.Some? ==> NoRun(old(Used()), pageMap.offset, p.value + count - 1, count)
      ensures p.None? ==> Used() == old(Used()) && NoRun(old(Used()), pageMap.offset, pageMap.offset + 8 * pageMap.length, count)
    {
      ghost var before := pageMap.Contents();
      var r := pageMap.Scan(count);
      if r == EOF {
        p := None;
      } else {
        p := Some(r);
        RunMarked(before, pageMap.offset, r, count);
      }
      ghost var high: int := if p.None? then pageMap.offset + 8 * pageMap.length else p.value + count - 1;
      forall q: nat | pageMap.offset <= q && q + count <= high
        ensures !RunFree(Marked(before, pageMap.offset), q, count)
      {
        RunMarked(before, pageMap.offset, q, count);
        assert !FreeRun(before, q - pageMap.offset, count);
      }
    }

    /** free_kpage. */
    method FreePages(p: nat, count: nat)
      requires pageMap.Valid() && Interval(p, p + count) <= Used()
      modifies pageMap.bits
      ensures Used() == old(Used()) - Interval(p, p + count)
    {
      var i := 0;
      while i < count
        invariant i <= count && Used() == old(Used()) - Interval(p, p + i)
      {
        assert p + i in Interval(p, p + count) && p + i in Used();
        ghost var before := pageMap.Contents();
        var taken := pageMap.Test(p + i);
        assert taken;
        pageMap.Set(p + i, false);
        MarkedLess(before, pageMap.Contents(), pageMap.offset, p + i);
        i := i + 1;
      }
    }
  
    /** Put the blocks of a new arena on the free list of its class, one by one. */
    method Fill(c: nat, p: nat)
      requires |free| == CLASSES && c < CLASSES
      modifies this`free
      ensures free == old(free)[c := PushBlocks(old(free[c]), p, c, TotalBlocks(c))]
    {
      var i := 0;
      while i < TotalBlocks(c)
        invariant i <= TotalBlocks(c)
        invariant free == old(free)[c := PushBlocks(old(free[c]), p, c, i)]
      {
        free := free[c := [Address(p, c, i)] + free[c]];
        i := i + 1;
      }
    }

    /** Take the blocks of an arena off the free list of its class, one by one. */
    method Drop(c: nat, p: nat)
      requires |free| == CLASSES && c < CLASSES
      modifies this`free
      ensures free == old(free)[c := DropBlocks(old(free[c]), p, c, TotalBlocks(c))]
    {
      var i := 0;
      while i < TotalBlocks(c)
        invariant i <= TotalBlocks(c)
        invariant free == old(free)[c := DropBlocks(old(free[c]), p, c, i)]
      {
        free := free[c := Without(free[c], Address(p, c, i))];
        i := i + 1;
      }
    }

    /** The loop that looks for the class. */
    method FindClass(size: nat) returns (c: nat)
      requires size <= LARGEST
      ensures c == ClassFor(size)
    {
      c := 0;
      while BlockSize(c) < size
        invariant c < CLASSES && forall d | 0 <= d < c :: BlockSize(d) < size
        decreases CLASSES - c
      {
        c := c + 1;
      }
    }

    /** A new arena of class c, or None when no page is free. */
    method Refill(c: nat) returns (p: Option<nat>)
      requires Valid() && c < CLASSES && free[c] == []
      modifies this`arenas, pageMap.bits, this`free
      ensures p.None? ==> St() == old(St()) && NoRun(old(Used()), pageMap.offset, pageMap.offset + 8 * pageMap.length, 1)
      ensures p.Some? ==> p.value !in old(Used()) && St() == Refilled(old(St()), c, p.value)
    {
      p := AllocPages(1);
      if p.Some? {
        assert Interval(p.value, p.value + 1) == {p.value};
        arenas := arenas[p.value := Small(c, TotalBlocks(c))];
        Fill(c, p.value);
      }
    }

    /** Hand out the first free block of class c. */
    method Pop(c: nat, size: nat) returns (a: nat)
      requires pageMap.Valid() && Base(St()) && c < CLASSES && free[c] != [] && size <= BlockSize(c)
      requires forall q: nat | q != PageOf(free[c][0]) :: NotFull(St(), q)
      modifies this`arenas, this`live, this`free
      ensures a == old(free[c][0]) && old(PageOf(a) in arenas && arenas[PageOf(a)].Small? && arenas[PageOf(a)].count > 0)
      ensures St() == Taken(old(St()), c, size)
    {
      TakenKeeps(St(), c, size);
      a := free[c][0];
      free := free[c := free[c][1..]];
      var p := PageOf(a);
      arenas := arenas[p := arenas[p].(count := arenas[p].count - 1)];
      live := live[a := size];
    }

    /** None where the kernel stops for want of free pages. */
    method Kmalloc(size: nat) returns (a: Option<nat>)
      requires Valid()
      modifies this`arenas, this`live, pageMap.bits, this`free
      ensures Valid()
      ensures a.Some? ==> Malloc(old(St()), size, a.value, St())
      ensures a.Some? ==> a.value !in old(live) && live == old(live)[a.value := size]
      ensures a.None? ==> St() == old(St())
      ensures a.None? ==> NoRun(old(Used()), pageMap.offset, pageMap.offset + 8 * pageMap.length,
                                if size > LARGEST then PagesFor(size) else 1)
    {
      hide ListOk, CountOk, LiveOk, PagesOk;
      ghost var s := St();
      if size > LARGEST {
        var p := AllocPages(PagesFor(size));
        if p.None? {
          return None;
        }
        arenas := arenas[p.value := Large(PagesFor(size))];
        a := Some(p.value * PAGE_SIZE + HEADER);
        live := live[a.value := size];
        assert St() == Grabbed(s, p.value, size);
      } else {
        var c := FindClass(size);
        if free[c] == [] {
          var p := Refill(c);
          if p.None? {
            return None;
          }
          RefilledBase(s, c, p.value);
          var b := Pop(c, size);
          a := Some(b);
          assert FreshPage(s, c, p.value) && TakeStep(Refilled(s, c, p.value), c, size, b, St());
        } else {
          var b := Pop(c, size);
          a := Some(b);
        }
      }
      MallocKeeps(s, size, a.value, St());
    }

    /** kfree of a block with pages of its own. */
    method FreeLarge(a: nat)
      requires Valid() && a in live && PageOf(a) in arenas && arenas[PageOf(a)].Large?
      modifies this`arenas, this`live, pageMap.bits
      ensures St() == Released(old(St()), a)
    {
      hide ListOk, CountOk, LiveOk, PagesOk;
      ghost var s := St();
      Known(s, a);
      var p := PageOf(a);
      assert Interval(p, p + arenas[p].pages) == Pages(p, arenas[p]);
      FreePages(p, arenas[p].pages);
      arenas := arenas - {p};
      live := live - {a};
    }

    /** Put a block back on the free list of its class. */
    method Push(a: nat)
      requires |free| == CLASSES && pageMap.Valid()
      requires PageOf(a) in arenas && arenas[PageOf(a)].Small? && arenas[PageOf(a)].sizeClass < CLASSES
      modifies this`arenas, this`live, this`free
      ensures St() == Returned(old(St()), a)
    {
      var p, c := PageOf(a), arenas[PageOf(a)].sizeClass;
      live := live - {a};
      free := free[c := [a] + free[c]];
      arenas := arenas[p := arenas[p].(count := arenas[p].count + 1)];
    }

    /** Give back the page of an arena. */
    method Dissolve(p: nat)
      requires |free| == CLASSES && pageMap.Valid() && p in Used()
      requires p in arenas && arenas[p].Small? && arenas[p].sizeClass < CLASSES
      modifies this`arenas, this`free, pageMap.bits
      ensures St() == Dissolved(old(St()), p)
    {
      assert Interval(p, p + 1) == {p};
      Drop(arenas[p].sizeClass, p);
      FreePages(p, 1);
      arenas := arenas - {p};
    }

    method Kfree(a: nat)
      requires Valid() && a in live
      modifies this`arenas, this`live, pageMap.bits, this`free
      ensures Valid() && Free(old(St()), a, St())
      ensures live == old(live) - {a} && others == old(others)
    {
      hide ListOk, CountOk, LiveOk, PagesOk;
      ghost var s := St();
      Known(s, a);
      var p := PageOf(a);
      if arenas[p].Large? {
        FreeLarge(a);
      } else {
        ReturnedKeeps(s, a);
        Push(a);
        if arenas[p].count == TotalBlocks(arenas[p].sizeClass) {
          Dissolve(p);
        }
      }
      FreeKeeps(s, a, St());
    }
  }

  /** A block that is out lies on an arena whose pages are marked. */
  lemma Known(s: State, a: nat)
    requires Inv(s) && a in s.live
    ensures PageOf(a) in s.arenas && PageOf(a) in s.used && Pages(PageOf(a), s.arenas[PageOf(a)]) <= s.used
  {
    ExtentInArena(s, a);
    assert PageOf(a) in Pages(PageOf(a), s.arenas[PageOf(a)]);
  }
}
