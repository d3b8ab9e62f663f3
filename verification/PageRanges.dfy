/** brk, mmap and munmap: runs of pages mapped and unmapped one by one, and the bitmap of a process's mapping area. */
module PageRanges {
  import opened Bitmaps
  import opened CopyOnWrite
  import opened FiniteSets
  import opened MemoryManager
  import opened Paging

  /** The mapping area starts at 128 MB; pages are numbered from 0. */
  const MMAP_PAGE := 0x8000
  const TOP_PAGE := 0x1_0000

  /** The pages first .. first+count-1 of process p. */
  ghost function Range(p: nat, first: nat, count: nat): (s: set<Key>)
    ensures forall k: Key :: k in s <==> k.pid == p && first <= k.vpn < first + count
  {
    set n | n in Interval(first, first + count) :: Key(p, n)
  }

  lemma AbsPages(m: Mem)
    requires Inv(m)
    ensures Abs(m).Keys == m.entries.Keys
  {}

  /** The pages of the range are there, read-only or not as asked; those there before keep their contents and their group,
      new ones are in a group exactly if shared; all other pages are as before. */
  ghost predicate RangeMapped(e: Eager, e': Eager, p: nat, first: nat, count: nat, readonly: bool, shared: bool) {
    KeysMapped(e, e', Range(p, first, count), readonly, shared)
  }

  ghost predicate KeysMapped(e: Eager, e': Eager, keys: set<Key>, readonly: bool, shared: bool) {
    && e'.Keys == e.Keys + keys
    && (forall k | k in e && k !in keys :: e'[k] == e[k])
    && (forall k | k in keys :: CellMapped(e, e', k, readonly, shared))
  }

  ghost predicate CellMapped(e: Eager, e': Eager, k: Key, readonly: bool, shared: bool) {
    && k in e' && e'[k].readonly == readonly
    && (e'[k].group.Group? <==> shared || (k in e && e[k].group.Group?))
    && (k in e ==> e'[k].data == e[k].data && (e[k].group.Group? ==> e'[k].group == e[k].group))
  }

  lemma NothingMapped(e: Eager, p: nat, first: nat, readonly: bool, shared: bool)
    ensures RangeMapped(e, e, p, first, 0, readonly, shared)
  {}

  lemma LinkedThenFlagged(e: Eager, e1: Eager, e2: Eager, k: Key, write: bool, shared: bool, privat: bool)
    requires k in e ==> e1 == e
    requires k !in e ==> EagerStep(e, Map(k, false, false, false), e1)
    requires EagerStep(e1, Remap(k, write, shared, privat), e2)
    ensures KeysMapped(e, e2, {k}, !write, shared)
  {}

  lemma OneMoreMapped(e: Eager, e1: Eager, e2: Eager, p: nat, first: nat, n: nat, readonly: bool, shared: bool)
    requires RangeMapped(e, e1, p, first, n, readonly, shared)
    requires KeysMapped(e1, e2, {Key(p, first + n)}, readonly, shared)
    ensures RangeMapped(e, e2, p, first, n + 1, readonly, shared)
  {
    hide KeysMapped;
    var k := Key(p, first + n);
    assert Range(p, first, n + 1) == Range(p, first, n) + {k};
    OneMoreKey(e, e1, e2, Range(p, first, n), k, readonly, shared);
  }

  lemma OneMoreKey(e: Eager, e1: Eager, e2: Eager, keys: set<Key>, k: Key, readonly: bool, shared: bool)
    requires KeysMapped(e, e1, keys, readonly, shared) && k !in keys
    requires KeysMapped(e1, e2, {k}, readonly, shared)
    ensures KeysMapped(e, e2, keys + {k}, readonly, shared)
  {
    assert k in e1 <==> k in e;
    forall j | j in keys
      ensures CellMapped(e, e2, j, readonly, shared)
    {
      assert CellMapped(e, e1, j, readonly, shared) && e2[j] == e1[j];
    }
    assert CellMapped(e1, e2, k, readonly, shared);
  }

  /** Unlink the pages first .. first+count-1: exactly they go, from this process alone. */
  method UnlinkRange(mm: Memory, p: nat, first: nat, count: nat)
    requires mm.Valid()
    modifies mm.memoryMap, mm`freePages, mm`entries
    ensures mm.Valid() && mm.Offset() == old(mm.Offset())
    ensures Abs(mm.St()) == Abs(old(mm.St())) - Range(p, first, count)
  {
    hide Inv, Abs;
    ghost var e := Abs(mm.St());
    var i := 0;
    while i < count
      invariant i <= count && mm.Valid() && mm.Offset() == old(mm.Offset())
      invariant Abs(mm.St()) == e - Range(p, first, i)
    {
      UnlinkOne(mm, Key(p, first + i));
      assert Range(p, first, i + 1) == Range(p, first, i) + {Key(p, first + i)};
      i := i + 1;
    }
  }

  /** One page, in terms of what processes see. */
  method UnlinkOne(mm: Memory, k: Key)
    requires mm.Valid()
    modifies mm.memoryMap, mm`freePages, mm`entries
    ensures mm.Valid() && mm.Offset() == old(mm.Offset())
    ensures Abs(mm.St()) == Abs(old(mm.St())) - {k}
  {
    hide Inv;
    ghost var m := mm.St();
    AbsPages(m);
    if k in mm.entries {
      UnmapRefines(m, k);
    }
    mm.UnlinkPage(k);
  }

  /**
   * sys_brk, in pages. Shrinking unmaps exactly the pages given up; growing maps none, and is refused exactly if it asks
   * for more pages than the free-page counter shows, which is more than there are.
   */
  method Brk(mm: Memory, p: nat, end: nat, oldBrk: nat, brk: nat) returns (ok: bool, newBrk: nat)
    requires mm.Valid() && end <= brk <= MMAP_PAGE
    modifies mm.memoryMap, mm`freePages, mm`entries
    ensures mm.Valid() && mm.Offset() == old(mm.Offset())
    ensures Abs(mm.St()) == Abs(old(mm.St())) - (if brk < oldBrk then Range(p, brk, oldBrk - brk) else {})
    ensures !ok <==> brk >= oldBrk && brk - oldBrk > old(mm.freePages)
    ensures newBrk == if ok then brk else oldBrk
  {
    hide Inv;
    if oldBrk > brk {
      UnlinkRange(mm, p, brk, oldBrk - brk);
    } else {
      assert Abs(mm.St()) - {} == Abs(mm.St());
      if brk - oldBrk > mm.freePages {
        return false, oldBrk;
      }
    }
    return true, brk;
  }

  /** The bits of a bitmap that stand for the pages first .. first+count-1. */
  predicate InRange(offset: nat, j: nat, first: nat, count: nat) {
    first <= offset + j < first + count
  }

  /** Every page of the range is marked. */
  ghost predicate AllMarked(bits: seq<bv8>, offset: nat, first: nat, count: nat) {
    forall j: nat | j < 8 * |bits| && InRange(offset, j, first, count) :: Bit(bits, j)
  }

  /** The bits of the range are value; all others are as before. */
  ghost predicate RangeSet(before: seq<bv8>, after: seq<bv8>, offset: nat, first: nat, count: nat, value: bool) {
    && |before| == |after|
    && forall j: nat | j < 8 * |before| :: Bit(after, j) == if InRange(offset, j, first, count) then value else Bit(before, j)
  }

  lemma OneMoreSet(before: seq<bv8>, now: seq<bv8>, after: seq<bv8>, offset: nat, first: nat, n: nat, value: bool)
    requires RangeSet(before, now, offset, first, n, value) && offset <= first
    requires OneBitChanged(now, after, first + n - offset, value)
    ensures RangeSet(before, after, offset, first, n + 1, value)
  {}

  lemma NextMarked(before: seq<bv8>, now: seq<bv8>, offset: nat, first: nat, n: nat, value: bool)
    requires RangeSet(before, now, offset, first, n, value) && offset <= first && first + n - offset < 8 * |before|
    ensures Bit(now, first + n - offset) == Bit(before, first + n - offset)
    ensures AllMarked(before, offset, first, n + 1) <==> AllMarked(before, offset, first, n) && Bit(before, first + n - offset)
  {
    assert InRange(offset, first + n - offset, first, n + 1);
    assert forall j: nat :: InRange(offset, j, first, n + 1) <==> InRange(offset, j, first, n) || j == first + n - offset;
  }

  /** The bitmap covers the range, and is none of the memory manager's own. */
  ghost predicate Covers(vmap: Bitmap, mm: Memory, first: nat, count: nat) {
    && vmap.Valid() && (vmap.bits as object) != (mm.memoryMap as object)
    && vmap.offset <= first && first + count <= vmap.offset + 8 * vmap.length
  }

  /**
   * sys_munmap. The pages go from the address space and from the bitmap; false stands for the failed assertion on a page
   * that the bitmap does not know.
   */
  method Munmap(mm: Memory, vmap: Bitmap, p: nat, first: nat, count: nat) returns (ok: bool)
    requires mm.Valid() && Covers(vmap, mm, first, count)
    modifies mm.memoryMap, mm`freePages, mm`entries, vmap.bits
    ensures ok <==> AllMarked(old(vmap.Contents()), vmap.offset, first, count)
    ensures mm.Valid() && mm.Offset() == old(mm.Offset())
    ensures ok ==> Abs(mm.St()) == Abs(old(mm.St())) - Range(p, first, count)
    ensures ok ==> RangeSet(old(vmap.Contents()), vmap.Contents(), vmap.offset, first, count, false)
  {
    hide Inv, AllMarked, RangeSet, Abs;
    ghost var e, before := Abs(mm.St()), vmap.Contents();
    NothingSet(before, vmap.offset, first, false);
    var i := 0;
    while i < count
      invariant i <= count && mm.Valid() && mm.Offset() == old(mm.Offset())
      invariant Abs(mm.St()) == e - Range(p, first, i)
      invariant AllMarked(before, vmap.offset, first, i)
      invariant RangeSet(before, vmap.Contents(), vmap.offset, first, i, false)
    {
      UnlinkOne(mm, Key(p, first + i));
      assert Range(p, first, i + 1) == Range(p, first, i) + {Key(p, first + i)};
      NextMarked(before, vmap.Contents(), vmap.offset, first, i, false);
      var known := vmap.Test(first + i);
      if !known {
        assert !AllMarked(before, vmap.offset, first, i + 1);
        NotAllMarked(before, vmap.offset, first, i + 1, count);
        return false;
      }
      MarkOne(vmap, mm, first, i, count, false, before);
      i := i + 1;
    }
    return true;
  }

  lemma NothingSet(bits: seq<bv8>, offset: nat, first: nat, value: bool)
    ensures RangeSet(bits, bits, offset, first, 0, value) && AllMarked(bits, offset, first, 0)
  {}

  lemma NotAllMarked(bits: seq<bv8>, offset: nat, first: nat, n: nat, count: nat)
    requires n <= count && !AllMarked(bits, offset, first, n)
    ensures !AllMarked(bits, offset, first, count)
  {
    assert forall j: nat :: InRange(offset, j, first, n) ==> InRange(offset, j, first, count);
  }

  method MarkOne(vmap: Bitmap, ghost mm: Memory, first: nat, i: nat, ghost count: nat, value: bool, ghost before: seq<bv8>)
    requires Covers(vmap, mm, first, count) && i < count
    requires RangeSet(before, vmap.Contents(), vmap.offset, first, i, value)
    modifies vmap.bits
    ensures RangeSet(before, vmap.Contents(), vmap.offset, first, i + 1, value)
  {
    hide RangeSet;
    ghost var now := vmap.Contents();
    vmap.Set(first + i, value);
    OneMoreSet(before, now, vmap.Contents(), vmap.offset, first, i, value);
  }

  /** Mapping the page again is harmless: it is alone on its frame, or shared already, or asked for neither sharing nor writing. */
  ghost predicate RemapHarmless(m: Mem, k: Key, write: bool, shared: bool) {
    k in m.entries && m.entries[k].frame < |m.counts| ==>
      m.counts[m.entries[k].frame] == 1 || m.entries[k].shared || (!shared && !write)
  }

  /**
   * sys_mmap once the address is chosen, where every page that is already there can harmlessly be mapped again: exactly
   * these pages are there, with the access and the sharing asked for, and are marked in the bitmap. False stands for the
   * out-of-memory panic.
   */
  method Mmap(mm: Memory, vmap: Bitmap, p: nat, first: nat, count: nat, write: bool, shared: bool, privat: bool)
    returns (ok: bool)
    requires mm.Valid() && p in mm.spaces && MMAP_PAGE <= first && first + count <= TOP_PAGE
    requires forall k | k in Range(p, first, count) :: RemapHarmless(mm.St(), k, write, shared)
    requires Covers(vmap, mm, first, count)
    modifies mm.memoryMap, mm`freePages, mm`tables, mm`entries, vmap.bits
    ensures ok ==> mm.Valid() && mm.Offset() == old(mm.Offset())
    ensures ok ==> RangeMapped(Abs(old(mm.St())), Abs(mm.St()), p, first, count, !write, shared)
    ensures ok ==> RangeSet(old(vmap.Contents()), vmap.Contents(), vmap.offset, first, count, true)
    ensures !ok ==> |old(mm.Zeros())| < 2 * count
  {
    hide Inv, EagerStep, RangeMapped, RangeSet, Abs, RemapHarmless;
    ghost var e, before := Abs(mm.St()), vmap.Contents();
    NothingMapped(e, p, first, !write, shared);
    NothingSet(before, vmap.offset, first, true);
    var i := 0;
    while i < count
      invariant i <= count && mm.Valid() && mm.Offset() == old(mm.Offset()) && p in mm.spaces
      invariant |mm.Zeros()| >= |old(mm.Zeros())| - 2 * i
      invariant forall k | k in Range(p, first + i, count - i) :: RemapHarmless(mm.St(), k, write, shared)
      invariant RangeMapped(e, Abs(mm.St()), p, first, i, !write, shared)
      invariant RangeSet(before, vmap.Contents(), vmap.offset, first, i, true)
    {
      ok := MapOne(mm, e, p, first, i, count, write, shared, privat);
      if !ok {
        return false;
      }
      MarkOne(vmap, mm, first, i, count, true, before);
      i := i + 1;
    }
    return true;
  }

  /** One turn of sys_mmap's loop. */
  method MapOne(mm: Memory, ghost e: Eager, p: nat, first: nat, i: nat, ghost count: nat, write: bool, shared: bool, privat: bool)
    returns (ok: bool)
    requires mm.Valid() && p in mm.spaces && MMAP_PAGE <= first && i < count && first + count <= TOP_PAGE
    requires forall k | k in Range(p, first + i, count - i) :: RemapHarmless(mm.St(), k, write, shared)
    requires RangeMapped(e, Abs(mm.St()), p, first, i, !write, shared)
    modifies mm.memoryMap, mm`freePages, mm`tables, mm`entries
    ensures ok ==> mm.Valid() && mm.Offset() == old(mm.Offset()) && mm.spaces == old(mm.spaces)
    ensures ok ==> |mm.Zeros()| >= |old(mm.Zeros())| - 2
    ensures ok ==> forall k | k in Range(p, first + (i + 1), count - (i + 1)) :: RemapHarmless(mm.St(), k, write, shared)
    ensures ok ==> RangeMapped(e, Abs(mm.St()), p, first, i + 1, !write, shared)
    ensures !ok ==> |old(mm.Zeros())| < 2
  {
    hide Inv, EagerStep, RangeMapped, LinkStep, RemapHarmless, Step, Abs;
    ghost var m := mm.St();
    var k := Key(p, first + i);
    ghost var mid: Mem;
    ok, mid := mm.LinkPage(k);
    if ok {
      ghost var linked := mm.St();
      LinkedView(m, k, mid, linked, write, shared);
      LinkedElsewhere(m, k, mid, linked, p, first + (i + 1), count - (i + 1), write, shared);
      FlagsElsewhere(linked, k, p, first + (i + 1), count - (i + 1), write, shared, privat);
      RemapRefines(linked, k, write, shared, privat);
      mm.SetFlags(k, write, shared, privat);
      LinkedThenFlagged(Abs(m), Abs(linked), Abs(mm.St()), k, write, shared, privat);
      OneMoreMapped(e, Abs(m), Abs(mm.St()), p, first, i, !write, shared);
    }
  }

  /** What linking page k is to the processes, and that its flags can then be set. */
  lemma LinkedView(m: Mem, k: Key, mid: Mem, linked: Mem, write: bool, shared: bool)
    requires Inv(m) && Inv(mid) && RemapHarmless(m, k, write, shared)
    requires if k in m.entries then linked == m else LinkStep(m, k, mid, linked)
    ensures k in Abs(m) ==> Abs(linked) == Abs(m)
    ensures k !in Abs(m) ==> EagerStep(Abs(m), Map(k, false, false, false), Abs(linked))
    ensures Inv(linked) && k in linked.entries
    ensures linked.counts[linked.entries[k].frame] == 1 || linked.entries[k].shared || (!shared && !write)
  {
    hide Inv, EagerStep;
    AbsPages(m);
    if k !in m.entries {
      SameView(m, mid, TableOf(k));
      StepRefines(mid, Map(k, false, false, false), linked);
    } else {
      FrameInRange(m, k);
    }
  }

  lemma FrameInRange(m: Mem, k: Key)
    requires Inv(m) && k in m.entries
    ensures m.entries[k].frame < |m.counts| && m.counts[m.entries[k].frame] > 0
  {
    UsedFrameCounted(m, k);
  }

  /** Linking a page takes frames that nobody uses. */
  lemma LinkedElsewhere(m: Mem, k: Key, mid: Mem, linked: Mem, p: nat, first: nat, count: nat, write: bool, shared: bool)
    requires Inv(m) && Inv(mid) && k !in Range(p, first, count)
    requires if k in m.entries then linked == m else LinkStep(m, k, mid, linked)
    requires forall j | j in Range(p, first, count) :: RemapHarmless(m, j, write, shared)
    ensures forall j | j in Range(p, first, count) :: RemapHarmless(linked, j, write, shared)
  {
    hide Inv;
    forall j | j in Range(p, first, count)
      ensures RemapHarmless(linked, j, write, shared)
    {
      assert RemapHarmless(m, j, write, shared);
      if k !in m.entries && j in m.entries {
        FrameInRange(m, j);
        FrameInRange(mid, j);
      }
    }
  }

  /** Setting the flags of one page moves no frame. */
  lemma FlagsElsewhere(m: Mem, k: Key, p: nat, first: nat, count: nat, write: bool, shared: bool, privat: bool)
    requires k in m.entries && k !in Range(p, first, count)
    requires forall j | j in Range(p, first, count) :: RemapHarmless(m, j, write, shared)
    ensures forall j | j in Range(p, first, count) :: RemapHarmless(Remapped(m, k, write, shared, privat), j, write, shared)
  {
    forall j | j in Range(p, first, count)
      ensures RemapHarmless(Remapped(m, k, write, shared, privat), j, write, shared)
    {
      assert RemapHarmless(m, j, write, shared);
    }
  }

  /** A new page table is seen by no process. */
  lemma SameView(m: Mem, mid: Mem, t: TableKey)
    requires Inv(m) && (mid == m || Step(m, NeedTable(t), mid))
    ensures Abs(mid) == Abs(m)
  {
    hide Inv;
    if mid != m {
      StepRefines(m, NeedTable(t), mid);
    }
  }
}
