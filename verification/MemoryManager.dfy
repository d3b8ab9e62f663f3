/** The memory manager itself: frame counters changed in place, page tables walked by index. */
module MemoryManager {
  import opened Bytes
  import opened FiniteSets
  import opened Limits
  import opened Options
  import opened Paging
  import opened CopyOnWrite
  import opened DirectoryCopy

  const BYTE_VALUES := 256
  const LOW_FRAMES := 256

  /** Page directory slots 4 .. 63 hold user pages: 16 MB up to the top of the user stack at 256 MB. */
  const USER_DIR_BEGIN := 4
  const USER_DIR_END := 64

  /** The last directory slot, which maps the directory itself. */
  const LAST_SLOT := 1023

  /** Page k is a user page. */
  predicate UserPage(k: Key) {
    USER_DIR_BEGIN * TABLE_ENTRIES <= k.vpn < USER_DIR_END * TABLE_ENTRIES
  }

  /** The top two megabytes of user pages are the stack's. */
  const STACK_BEGIN := USER_DIR_END * TABLE_ENTRIES - 0x200

  /** How a fault ends: handled, outside the user's pages, stopped by an assertion of the handler, or out of memory. */
  datatype Fault = Handled | Segfault | Refused | NoMemory

  /** A page that is not there is mapped on demand below the break and in the stack. */
  predicate OnDemand(k: Key, brk: nat) {
    k.vpn < brk || k.vpn >= STACK_BEGIN
  }

  /** The same in addresses: user pages lie from 16 MB to 256 MB, and the stack takes the last two megabytes of them. */
  lemma FaultAddresses(k: Key, brk: nat)
    ensures var vaddr := k.vpn * PAGE_SIZE;
            && (UserPage(k) <==> 0x100_0000 <= vaddr < 0x1000_0000)
            && (OnDemand(k, brk) <==> vaddr < brk * PAGE_SIZE || vaddr >= 0x1000_0000 - 0x20_0000)
  {}

  /** How link_page maps a page: a table for it if there is none, then a frame; mid is the state in between. */
  ghost predicate LinkStep(m: Mem, k: Key, mid: Mem, m': Mem) {
    && (mid == m || Step(m, NeedTable(TableOf(k)), mid))
    && Step(mid, Map(k, false, false, false), m')
  }

  class Memory {
    const memoryMap: array<nat>
    const startPage: nat
    var freePages: int
    var entries: map<Key, Entry>
    var tables: map<TableKey, nat>
    var spaces: set<nat>
    var phys: seq<Page>

    ghost function St(): Mem
      reads this, memoryMap
    {
      Mem(memoryMap[..], entries, tables, spaces, phys)
    }

    /** Frames nobody uses. */
    ghost function Zeros(): set<nat>
      reads memoryMap
    {
      set f | 0 <= f < memoryMap.Length && memoryMap[f] == 0
    }

    /** The free-page counter is ahead of the real number of free frames by a constant. */
    ghost function Offset(): int
      reads this`freePages, memoryMap
    {
      freePages - |Zeros()|
    }

    ghost predicate Sane()
      reads this`freePages, memoryMap
    {
      && startPage <= KERNEL_FRAMES <= memoryMap.Length
      && (forall f | 0 <= f < KERNEL_FRAMES :: memoryMap[f] > 0)
      && 0 < Offset() < KERNEL_FRAMES
    }

    ghost predicate Valid()
      reads this, memoryMap
    {
      && Sane() && Inv(St())
      && (forall k | k in entries :: UserPage(k))
      && (forall t | t in tables :: USER_DIR_BEGIN <= t.didx < USER_DIR_END)
    }

    /** Booting: memory_init, memory_map_init and the counting half of mapping_init. */
    constructor (memoryPages: nat, phys: seq<Page>)
      requires KERNEL_FRAMES <= memoryPages && memoryPages + LOW_FRAMES <= 0x10_0000
      requires |phys| == memoryPages + LOW_FRAMES
      ensures fresh(memoryMap) && Valid() && Boot(St())
      ensures Offset() == KERNEL_FRAMES - startPage
    {
      var totalPages := memoryPages + LOW_FRAMES;
      var mapPages := (totalPages + PAGE_SIZE - 1) / PAGE_SIZE;
      var frames := new nat[totalPages](_ => 0);
      memoryMap := frames;
      startPage := LOW_FRAMES + mapPages;
      freePages := memoryPages - mapPages;
      entries, tables, spaces := map[], map[], {};
      this.phys := phys;
      new;
      MarkBelow(LOW_FRAMES + mapPages);
      MarkBelow(KERNEL_FRAMES);
      assert Zeros() == Interval(KERNEL_FRAMES, memoryMap.Length);
      IntervalSize(KERNEL_FRAMES, memoryMap.Length);
      BootInv(St());
    }

    method MarkBelow(n: nat)
      requires n <= memoryMap.Length
      modifies memoryMap
      ensures forall f | 0 <= f < memoryMap.Length :: memoryMap[f] == if f < n then 1 else old(memoryMap[f])
    {
      var i := 0;
      while i < n
        invariant 0 <= i <= n
        invariant forall f | 0 <= f < memoryMap.Length :: memoryMap[f] == if f < i then 1 else old(memoryMap[f])
      {
        memoryMap[i] := 1;
        i := i + 1;
      }
    }

    /** First free frame; None stands for the out-of-memory panic. */
    method GetPage() returns (r: Option<nat>)
      requires Sane()
      modifies memoryMap, this`freePages
      ensures r.None? ==> memoryMap[..] == old(memoryMap[..]) && old(Zeros()) == {}
      ensures r.Some? ==> KERNEL_FRAMES <= r.value < memoryMap.Length && old(memoryMap[r.value]) == 0
      ensures r.Some? ==> memoryMap[..] == old(memoryMap[..])[r.value := 1]
      ensures r.Some? ==> |Zeros()| == |old(Zeros())| - 1
      ensures r.Some? ==> forall f | 0 <= f < r.value :: old(memoryMap[f]) > 0
      ensures Sane() && Offset() == old(Offset())
    {
      var i := startPage;
      while i < memoryMap.Length
        invariant startPage <= i <= memoryMap.Length
        invariant forall f | 0 <= f < i :: memoryMap[f] > 0
      {
        if memoryMap[i] == 0 {
          ghost var zeros := Zeros();
          memoryMap[i] := 1;
          freePages := freePages - 1;
          assert Zeros() == zeros - {i};
          return Some(i);
        }
        i := i + 1;
      }
      return None;
    }

    /** Drop one use of frame f. The kernel's assertions on the frame and on the counter hold. */
    method PutPage(f: nat) returns (ok: bool)
      requires Sane() && KERNEL_FRAMES <= f < memoryMap.Length && memoryMap[f] > 0
      modifies memoryMap, this`freePages
      ensures ok && memoryMap[..] == old(memoryMap[..])[f := old(memoryMap[f]) - 1]
      ensures Sane() && Offset() == old(Offset())
    {
      ghost var zeros := Zeros();
      memoryMap[f] := memoryMap[f] - 1;
      if memoryMap[f] == 0 {
        freePages := freePages + 1;
        assert Zeros() == zeros + {f};
      } else {
        assert Zeros() == zeros;
      }
      ZerosBounded();
      ok := 0 < freePages < memoryMap.Length;
    }

    /** The page table for a page, allocated if the directory has none. */
    method GetPte(t: TableKey, create: bool) returns (ok: bool)
      requires Valid() && t.pid in spaces && USER_DIR_BEGIN <= t.didx < USER_DIR_END
      requires create || t in tables
      modifies memoryMap, this`freePages, this`tables
      ensures ok ==> Valid() && t in tables && Offset() == old(Offset())
      ensures ok ==> if t in old(tables) then St() == old(St()) else Step(old(St()), NeedTable(t), St())
      ensures ok ==> |Zeros()| >= |old(Zeros())| - 1
      ensures !ok ==> t !in old(tables) && old(Zeros()) == {}
    {
      hide TablesApart, Aligned, SoleWriter, Flags, Counted;
      if t !in tables {
        ghost var m := St();
        var page := GetPage();
        if page.None? {
          return false;
        }
        tables := tables[t := page.value];
        assert St() == TableAdded(m, t, page.value);
        StepRefines(m, NeedTable(t), St());
      }
      ok := true;
    }

    /** link_page: a page that is there is left alone; any other gets a frame, writable and private. */
    method LinkPage(k: Key) returns (ok: bool, ghost mid: Mem)
      requires Valid() && k.pid in spaces && UserPage(k)
      modifies memoryMap, this`freePages, this`tables, this`entries
      ensures ok ==> Valid() && Offset() == old(Offset()) && spaces == old(spaces)
      ensures k in old(entries) ==> ok && St() == old(St())
      ensures ok && k !in old(entries) ==> LinkStep(old(St()), k, mid, St())
      ensures ok ==> Inv(mid)
      ensures ok ==> |Zeros()| >= |old(Zeros())| - 2
      ensures !ok ==> |old(Zeros())| < 2
    {
      hide TablesApart, Aligned, SoleWriter, Flags, Counted;
      ok := GetPte(TableOf(k), true);
      mid := St();
      if !ok || k in entries {
        return;
      }
      var page := GetPage();
      if page.None? {
        return false, mid;
      }
      entries := entries[k := Entry(true, false, false, false, page.value)];
      assert St() == Mapped(mid, k, false, false, false, page.value);
      StepRefines(mid, Map(k, false, false, false), St());
    }

    /**
     * What mmap does to the flags of a page once it is linked. On a page that was there before, this keeps the invariant
     * exactly if the page is alone on its frame, or shared already, or asked for neither sharing nor writing.
     */
    method SetFlags(k: Key, write: bool, shared: bool, privat: bool)
      requires Valid() && k in entries
      modifies this`entries
      ensures k in old(entries) && St() == Remapped(old(St()), k, write, shared, privat)
      ensures Valid() <==> old(memoryMap[entries[k].frame]) == 1 || old(entries[k]).shared || (!shared && !write)
    {
      hide TablesApart, Aligned, SoleWriter, Flags, Counted;
      RemapKeepsInv(St(), k, write, shared, privat);
      var entry := entries[k].(write := false, readonly := true);
      if write {
        entry := entry.(readonly := false, write := true);
      }
      if shared {
        entry := entry.(shared := true);
      }
      if privat {
        entry := entry.(privat := true);
      }
      entries := entries[k := entry];
      assert St() == Remapped(old(St()), k, write, shared, privat);
    }

    /** Drop the mapping of a page, if there is one. */
    method UnlinkPage(k: Key)
      requires Valid()
      modifies memoryMap, this`freePages, this`entries
      ensures Valid() && Offset() == old(Offset())
      ensures if k in old(entries) then Step(old(St()), Unmap(k), St()) else St() == old(St())
    {
      hide TablesApart, Aligned, SoleWriter, Flags, Counted;
      if TableOf(k) !in tables || k !in entries {
        return;
      }
      ghost var m := St();
      UnmapRefines(m, k);
      var f := entries[k].frame;
      entries := entries - {k};
      var ok := PutPage(f);
      assert St() == Unmapped(m, k);
    }

    /** A write fault on a present page: take the page over if nobody else uses it, copy it otherwise. */
    method WriteFault(k: Key) returns (r: Fault)
      requires Valid() && k in entries && !entries[k].write
      modifies memoryMap, this`freePages, this`entries, this`phys
      ensures !r.Segfault? && (r.Refused? <==> old(entries[k].readonly))
      ensures r.Handled? ==> Valid() && k in entries && entries[k].write && Offset() == old(Offset())
      ensures r.Handled? ==> FaultStep(old(St()), k, St())
      ensures r.NoMemory? ==> old(Zeros()) == {}
    {
      hide TablesApart, Aligned, SoleWriter, Counted;
      ghost var m := St();
      var entry := entries[k];
      if entry.shared || entry.readonly {
        return Refused;
      }
      if memoryMap[entry.frame] == 1 {
        MadeWritableKeepsInv(m, k);
        entries := entries[k := entry.(write := true)];
        assert St() == MadeWritable(m, k);
        return Handled;
      }
      UsedFrameCounted(m, k);
      var ok := SplitPage(k);
      return if ok then Handled else NoMemory;
    }

    /** Give the page a frame of its own with the same contents; false when no frame is free. */
    method SplitPage(k: Key) returns (ok: bool)
      requires Valid() && k in entries && !entries[k].write && !entries[k].readonly && memoryMap[entries[k].frame] > 1
      modifies memoryMap, this`freePages, this`entries, this`phys
      ensures ok ==> Valid() && Offset() == old(Offset())
      ensures ok ==> exists f :: FreeFrame(old(St()), f) && f != old(entries[k].frame) && St() == Split(old(St()), k, f)
      ensures !ok ==> old(Zeros()) == {}
    {
      hide TablesApart, Aligned, SoleWriter, Counted;
      ghost var m := St();
      var frame := entries[k].frame;
      var page := GetPage();
      if page.None? {
        return false;
      }
      SplitKeepsInv(m, k, page.value);
      phys := phys[page.value := phys[frame]];
      DropShared(frame);
      entries := entries[k := Entry(true, false, false, false, page.value)];
      assert FreeFrame(m, page.value) && St() == Split(m, k, page.value);
      return true;
    }

    /**
     * page_fault, for a process whose break is at page brk. The processor faults on a page that is not there, and on a
     * write to one that is not writable.
     */
    method PageFault(k: Key, brk: nat) returns (r: Fault, ghost mid: Mem)
      requires Valid() && k.pid in spaces && (k in entries ==> !entries[k].write)
      modifies memoryMap, this`freePages, this`tables, this`entries, this`phys
      ensures r.Segfault? <==> !UserPage(k)
      ensures r.Refused? <==> UserPage(k) && if k in old(entries) then old(entries[k].readonly) else !OnDemand(k, brk)
      ensures r.Handled? ==> Valid() && k in entries && entries[k].write && Offset() == old(Offset())
      ensures r.Handled? ==> if k in old(entries) then FaultStep(old(St()), k, St()) else LinkStep(old(St()), k, mid, St()) && Inv(mid)
      ensures r.NoMemory? ==> |old(Zeros())| < if k in old(entries) then 1 else 2
    {
      hide TablesApart, Aligned, SoleWriter, Counted, FaultStep;
      mid := St();
      if !UserPage(k) {
        return Segfault, mid;
      }
      if k in entries {
        r := WriteFault(k);
        return;
      }
      if OnDemand(k, brk) {
        var ok;
        ok, mid := LinkPage(k);
        return if ok then Handled else NoMemory, mid;
      }
      return Refused, mid;
    }

    /** memory_map[f]-- on a frame that stays in use. */
    method DropShared(f: nat)
      requires Sane() && f < memoryMap.Length && memoryMap[f] > 1
      modifies memoryMap
      ensures Sane() && Offset() == old(Offset())
      ensures memoryMap[..] == old(memoryMap[..])[f := old(memoryMap[f]) - 1]
    {
      ghost var zeros := Zeros();
      memoryMap[f] := memoryMap[f] - 1;
      assert Zeros() == zeros;
    }

    /**
     * A byte stored in user mode at offset off of a page, with the fault it may take first. The ghosts are the states after
     * a table was added, and after the page was linked, where it was not there.
     */
    method UserStore(k: Key, off: nat, b: Byte, brk: nat) returns (r: Fault, ghost mid: Mem, ghost linked: Mem)
      requires Valid() && k.pid in spaces && off < PAGE_SIZE
      modifies memoryMap, this`freePages, this`tables, this`entries, this`phys
      ensures r.Segfault? <==> !UserPage(k)
      ensures r.Refused? <==> UserPage(k) && if k in old(entries) then old(entries[k].readonly) else !OnDemand(k, brk)
      ensures r.Handled? ==> Valid() && Offset() == old(Offset())
      ensures r.Handled? && k in old(entries) ==> Step(old(St()), Store(k, off, b), St())
      ensures r.Handled? && k !in old(entries) ==> LinkStep(old(St()), k, mid, linked) && Step(linked, Store(k, off, b), St())
      ensures r.NoMemory? ==> |old(Zeros())| < if k in old(entries) then 1 else 2
    {
      hide TablesApart, Aligned, SoleWriter, Counted, FaultStep, LinkStep;
      r, mid, linked := Handled, St(), St();
      if k !in entries || !entries[k].write {
        r, mid := PageFault(k, brk);
        linked := St();
        if !r.Handled? {
          return;
        }
      }
      ghost var m1 := St();
      StoredKeepsInv(m1, k, off, b);
      var f := entries[k].frame;
      phys := phys[f := phys[f][off := b]];
      assert St() == Stored(m1, k, off, b);
    }

    /** One page of copy_pde: protect it unless it is shared, and count one more use. False stands for a failed assertion. */
    method CopyPage(p: nat, n: nat, ghost m: Mem, ghost c: nat, ghost tf: map<nat, nat>, ghost d: nat) returns (ok: bool)
      requires Sane() && Ready(m, p, c) && Copying(m, St(), p, c, tf, n, d) && Key(p, n) in m.entries
      modifies memoryMap, this`entries
      ensures ok && Sane() && Offset() == old(Offset()) && Zeros() == old(Zeros())
      ensures Copying(m, St(), p, c, tf, n + 1, d)
    {
      hide Inv, CopiedEntries, UsedBelow, TablesSoFar, ForkedTables;
      ghost var s := St();
      CopyingPage(m, s, p, c, tf, n, d);
      var k := Key(p, n);
      var f := entries[k].frame;
      if memoryMap[f] == 0 {
        return false;
      }
      if !entries[k].shared {
        entries := entries[k := entries[k].(write := false)];
      }
      assert entries == s.entries[k := ShareEntry(s.entries[k])];
      ghost var zeros := Zeros();
      memoryMap[f] := (memoryMap[f] + 1) % BYTE_VALUES;
      assert Zeros() == zeros;
      assert St() == s.(counts := s.counts[f := s.counts[f] + 1], entries := s.entries[k := ShareEntry(s.entries[k])]);
      ok := memoryMap[f] < BYTE_VALUES - 1;
    }

    /** The inner loop of copy_pde. */
    method CopyPages(p: nat, d: nat, ghost m: Mem, ghost c: nat, ghost tf: map<nat, nat>) returns (ok: bool)
      requires Sane() && Ready(m, p, c) && Copying(m, St(), p, c, tf, d * TABLE_ENTRIES, d)
      modifies memoryMap, this`entries
      ensures ok && Sane() && Offset() == old(Offset()) && Zeros() == old(Zeros())
      ensures Copying(m, St(), p, c, tf, (d + 1) * TABLE_ENTRIES, d)
    {
      hide Inv, Copying;
      var tidx := 0;
      while tidx < TABLE_ENTRIES
        invariant 0 <= tidx <= TABLE_ENTRIES
        invariant Sane() && Offset() == old(Offset()) && Zeros() == old(Zeros())
        invariant Copying(m, St(), p, c, tf, d * TABLE_ENTRIES + tidx, d)
      {
        var n := d * TABLE_ENTRIES + tidx;
        ParentPage(m, St(), p, c, tf, n, d);
        if Key(p, n) in entries {
          ok := CopyPage(p, n, m, c, tf, d);
        } else {
          CopyingNoPage(m, St(), p, c, tf, n, n + 1, d);
        }
        tidx := tidx + 1;
      }
      ok := true;
    }

    /** The end of a turn of copy_pde's outer loop: the table is copied to a fresh frame. */
    method CopyTable(p: nat, c: nat, d: nat, ghost m: Mem, ghost tf: map<nat, nat>) returns (ok: bool, ghost page: nat)
      requires Sane() && Ready(m, p, c) && Copying(m, St(), p, c, tf, d * TABLE_ENTRIES, d) && TableKey(p, d) in m.tables
      modifies memoryMap, this`freePages, this`tables, this`entries
      ensures ok ==> Sane() && Offset() == old(Offset()) && |Zeros()| == |old(Zeros())| - 1
      ensures ok ==> Copying(m, St(), p, c, tf[d := page], (d + 1) * TABLE_ENTRIES, d + 1)
      ensures !ok ==> old(Zeros()) == {}
    {
      hide Inv, Copying;
      ok := CopyPages(p, d, m, c, tf);
      ghost var s := St();
      var r := GetPage();
      if r.None? {
        return false, 0;
      }
      page := r.value;
      CopyingTable(m, s, p, c, tf, d, page);
      tables := tables[TableKey(c, d) := r.value];
      entries := entries + ChildPages(entries, p, c, d);
      assert St() == s.(counts := s.counts[page := 1], tables := s.tables[TableKey(c, d) := page],
                        entries := s.entries + ChildPages(s.entries, p, c, d));
    }

    lemma ParentPage(m: Mem, s: Mem, p: nat, c: nat, tf: map<nat, nat>, n: nat, d: nat)
      requires Copying(m, s, p, c, tf, n, d) && p != c
      ensures Key(p, n) in s.entries <==> Key(p, n) in m.entries
    {}

    /** Copy the address space of p for c; false stands for the out-of-memory panic. */
    method CopyPde(p: nat, c: nat) returns (ok: bool)
      requires Valid() && p in spaces && c !in spaces && |spaces| < NR_TASKS
      modifies memoryMap, this`freePages, this`tables, this`entries, this`spaces
      ensures ok ==> Valid() && Offset() == old(Offset()) && Step(old(St()), Fork(p, c), St())
      ensures !ok ==> |old(Zeros())| < |TablesOf(old(St()), p)|
    {
      hide Inv, Copying;
      ghost var m := St();
      ghost var tf: map<nat, nat> := map[];
      CopyingStart(m, p, c, USER_DIR_BEGIN);
      var didx := USER_DIR_BEGIN;
      while didx < LAST_SLOT
        invariant USER_DIR_BEGIN <= didx <= LAST_SLOT
        invariant Sane() && Offset() == old(Offset())
        invariant Copying(m, St(), p, c, tf, didx * TABLE_ENTRIES, didx)
        invariant |Zeros()| + |tf| == |old(Zeros())|
      {
        ParentTable(m, St(), p, c, tf, didx);
        if TableKey(p, didx) in tables {
          ghost var page;
          ok, page := CopyTable(p, c, didx, m, tf);
          if !ok {
            return;
          }
          tf := tf[didx := page];
        } else {
          CopyingNoTable(m, St(), p, c, tf, didx);
        }
        didx := didx + 1;
      }
      FinishCopy(p, c, m, tf);
      ok := true;
    }

    /** The child gets the finished directory. */
    method FinishCopy(p: nat, c: nat, ghost m: Mem, ghost tf: map<nat, nat>)
      requires Sane() && Ready(m, p, c) && |m.spaces| < NR_TASKS
      requires Copying(m, St(), p, c, tf, LAST_SLOT * TABLE_ENTRIES, LAST_SLOT)
      requires forall k | k in m.entries :: UserPage(k)
      requires forall t | t in m.tables :: USER_DIR_BEGIN <= t.didx < USER_DIR_END
      modifies this`spaces
      ensures Valid() && Offset() == old(Offset()) && Step(m, Fork(p, c), St())
    {
      hide TablesApart, Aligned, SoleWriter, Flags, Counted, UsedBelow, TablesSoFar, CopiedEntries, ForkedEntries, ForkedTables;
      CopyingDone(m, St(), p, c, tf, LAST_SLOT);
      ForkedUserPages(m, p, c, tf);
      assert spaces == m.spaces;
      spaces := spaces + {c};
      assert St() == Forked(m, p, c, tf);
      ForkRefines(m, p, c, tf);
    }

    lemma ForkedUserPages(m: Mem, p: nat, c: nat, tf: map<nat, nat>)
      requires Shaped(m) && p in m.spaces && c !in m.spaces && Fresh(m, p, tf)
      requires forall k | k in m.entries :: UserPage(k)
      requires forall t | t in m.tables :: USER_DIR_BEGIN <= t.didx < USER_DIR_END
      ensures forall k | k in Forked(m, p, c, tf).entries :: UserPage(k)
      ensures forall t | t in Forked(m, p, c, tf).tables :: USER_DIR_BEGIN <= t.didx < USER_DIR_END
    {
      forall k | k in Forked(m, p, c, tf).entries
        ensures UserPage(k)
      {
        ForkedEntry(m, p, c, tf, k);
      }
      forall t | t in Forked(m, p, c, tf).tables
        ensures USER_DIR_BEGIN <= t.didx < USER_DIR_END
      {
        ForkedTable(m, p, c, tf, t);
      }
    }

    lemma ParentTable(m: Mem, s: Mem, p: nat, c: nat, tf: map<nat, nat>, d: nat)
      requires Copying(m, s, p, c, tf, d * TABLE_ENTRIES, d) && p != c
      ensures TableKey(p, d) in s.tables <==> TableKey(p, d) in m.tables
      ensures d !in tf
      ensures TableKey(p, d) in m.tables ==> |tf| < |TablesOf(m, p)|
    {
      if TableKey(p, d) in m.tables {
        assert d in TablesOf(m, p);
        forall e | e in tf
          ensures e in TablesOf(m, p) - {d}
        {
          assert TableKey(p, e) in m.tables;
        }
        SubsetSize(tf.Keys, TablesOf(m, p) - {d});
      }
    }

    /** The inner loop of free_pde. */
    method ReleasePages(p: nat, d: nat, ghost m: Mem)
      requires Sane() && Inv(m) && entries == m.entries && Releasing(m, memoryMap[..], p, d * TABLE_ENTRIES, d)
      modifies memoryMap, this`freePages
      ensures Sane() && Offset() == old(Offset()) && Releasing(m, memoryMap[..], p, (d + 1) * TABLE_ENTRIES, d)
    {
      hide Inv, Releasing;
      var tidx := 0;
      while tidx < TABLE_ENTRIES
        invariant 0 <= tidx <= TABLE_ENTRIES
        invariant Sane() && Offset() == old(Offset())
        invariant Releasing(m, memoryMap[..], p, d * TABLE_ENTRIES + tidx, d)
      {
        var k := Key(p, d * TABLE_ENTRIES + tidx);
        if k in entries {
          ReleasePage(k, m, d);
        } else {
          ReleasingNoPage(m, memoryMap[..], p, k.vpn, k.vpn + 1, d);
        }
        tidx := tidx + 1;
      }
    }

    method ReleasePage(k: Key, ghost m: Mem, ghost d: nat)
      requires Sane() && Inv(m) && entries == m.entries && k in entries && Releasing(m, memoryMap[..], k.pid, k.vpn, d)
      modifies memoryMap, this`freePages
      ensures Sane() && Offset() == old(Offset()) && Releasing(m, memoryMap[..], k.pid, k.vpn + 1, d)
    {
      hide Inv, UsedBelow, TableBelow;
      ReleasingPage(m, memoryMap[..], k.pid, k.vpn, d);
      var ok := PutPage(entries[k].frame);
    }

    method ReleaseTable(t: TableKey, ghost m: Mem)
      requires Sane() && Inv(m) && entries == m.entries && tables == m.tables && t in tables
      requires Releasing(m, memoryMap[..], t.pid, t.didx * TABLE_ENTRIES, t.didx)
      modifies memoryMap, this`freePages
      ensures Sane() && Offset() == old(Offset())
      ensures Releasing(m, memoryMap[..], t.pid, (t.didx + 1) * TABLE_ENTRIES, t.didx + 1)
    {
      hide Inv, UsedBelow, TableBelow;
      ReleasePages(t.pid, t.didx, m);
      ReleasingTable(m, memoryMap[..], t.pid, (t.didx + 1) * TABLE_ENTRIES, t.didx);
      var ok := PutPage(tables[t]);
    }

    /** Put back every page and every page table of p. */
    method FreePde(p: nat)
      requires Valid() && p in spaces
      modifies memoryMap, this`freePages, this`tables, this`entries, this`spaces
      ensures Valid() && Offset() == old(Offset()) && Step(old(St()), Exit(p), St())
    {
      hide TablesApart, Aligned, SoleWriter, Flags, Counted, Releasing, Step;
      ghost var m := St();
      ReleasingStart(m, p, USER_DIR_BEGIN);
      var didx := USER_DIR_BEGIN;
      while didx < LAST_SLOT
        invariant USER_DIR_BEGIN <= didx <= LAST_SLOT
        invariant Sane() && Offset() == old(Offset())
        invariant Releasing(m, memoryMap[..], p, didx * TABLE_ENTRIES, didx)
        invariant entries == m.entries && tables == m.tables && spaces == m.spaces
      {
        if TableKey(p, didx) in tables {
          ReleaseTable(TableKey(p, didx), m);
        } else {
          ReleasingNoTable(m, memoryMap[..], p, didx);
        }
        didx := didx + 1;
      }
      FinishRelease(p, m);
    }

    /** The process is gone from the tables. */
    method FinishRelease(p: nat, ghost m: Mem)
      requires Sane() && Inv(m) && p in m.spaces && Releasing(m, memoryMap[..], p, LAST_SLOT * TABLE_ENTRIES, LAST_SLOT)
      requires entries == m.entries && tables == m.tables && spaces == m.spaces && phys == m.phys
      requires forall k | k in m.entries :: UserPage(k)
      requires forall t | t in m.tables :: USER_DIR_BEGIN <= t.didx < USER_DIR_END
      modifies this`tables, this`entries, this`spaces
      ensures Valid() && Offset() == old(Offset()) && Step(m, Exit(p), St())
    {
      hide TablesApart, Aligned, SoleWriter, Flags, Counted, Releasing;
      ReleasingDone(m, memoryMap[..], p, LAST_SLOT);
      entries := WithoutPages(entries, p);
      tables := WithoutTables(tables, p);
      spaces := spaces - {p};
      assert St() == Exited(m, p);
      ExitRefines(m, p);
    }

    lemma ZerosBounded()
      requires startPage <= KERNEL_FRAMES <= memoryMap.Length
      requires forall f | 0 <= f < KERNEL_FRAMES :: memoryMap[f] > 0
      ensures |Zeros()| <= memoryMap.Length - KERNEL_FRAMES
    {
      IntervalSize(KERNEL_FRAMES, memoryMap.Length);
      SubsetSize(Zeros(), Interval(KERNEL_FRAMES, memoryMap.Length));
    }
  }
}
