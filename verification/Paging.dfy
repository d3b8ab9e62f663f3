/**
 * Copy-on-write address spaces as values: which frame each process has at each page, and how many use it.
 * The reference is a system whose fork copies every private page on the spot.
 */
module Paging {
  import opened Bytes
  import opened FiniteSets
  import opened Limits

  const TABLE_ENTRIES := 1024
  const KERNEL_FRAMES := 0x1000

  type Page = p: seq<Byte> | |p| == PAGE_SIZE witness seq(PAGE_SIZE, _ => 0)

  /** Page vpn of process pid. */
  datatype Key = Key(pid: nat, vpn: nat)

  /** Page table number didx of process pid. */
  datatype TableKey = TableKey(pid: nat, didx: nat)

  datatype Entry = Entry(write: bool, shared: bool, privat: bool, readonly: bool, frame: nat)

  /**
   * counts: uses of each frame; entries: the present page-table entries; tables: the frames that hold page
   * tables; spaces: the processes that have an address space; phys: the contents of the frames.
   */
  datatype Mem = Mem(counts: seq<nat>, entries: map<Key, Entry>, tables: map<TableKey, nat>, spaces: set<nat>, phys: seq<Page>)

  function TableOf(k: Key): TableKey {
    TableKey(k.pid, k.vpn / TABLE_ENTRIES)
  }

  /** The pages mapped to frame f. */
  function Users(m: Mem, f: nat): set<Key> {
    set k | k in m.entries && m.entries[k].frame == f
  }

  /** The page tables kept in frame f. */
  function TableUsers(m: Mem, f: nat): set<TableKey> {
    set t | t in m.tables && m.tables[t] == f
  }

  /** Frame f exists and is one that user pages and page tables come from. */
  predicate UserFrame(m: Mem, f: nat) {
    KERNEL_FRAMES <= f < |m.counts|
  }

  ghost predicate Shaped(m: Mem) {
    && |m.phys| == |m.counts|
    && |m.spaces| <= NR_TASKS
    && (forall f: nat | f < |m.counts| && f < KERNEL_FRAMES :: m.counts[f] > 0)
    && (forall k | k in m.entries :: UserFrame(m, m.entries[k].frame) && k.pid in m.spaces && TableOf(k) in m.tables)
    && (forall t | t in m.tables :: UserFrame(m, m.tables[t]) && t.pid in m.spaces)
  }

  /** Every count is the number of uses. */
  ghost predicate Counted(m: Mem) {
    forall f: nat | UserFrame(m, f) :: m.counts[f] == |Users(m, f)| + |TableUsers(m, f)|
  }

  /** A frame holds one page table, or user pages. */
  ghost predicate TablesApart(m: Mem) {
    && (forall t, u | t in m.tables && u in m.tables && m.tables[t] == m.tables[u] :: t == u)
    && (forall t, k | t in m.tables && k in m.entries :: m.tables[t] != m.entries[k].frame)
  }

  /** Pages on one frame are the same page of their processes, and either all marked shared or none. */
  ghost predicate Aligned(m: Mem) {
    forall j, k | j in m.entries && k in m.entries && m.entries[j].frame == m.entries[k].frame ::
      j.vpn == k.vpn && m.entries[j].shared == m.entries[k].shared
  }

  /** A page that can be written without a fault is either shared or the only one on its frame. */
  ghost predicate SoleWriter(m: Mem) {
    forall j, k | j in m.entries && k in m.entries && m.entries[j].frame == m.entries[k].frame
                  && m.entries[j].write && !m.entries[j].shared ::
      j == k
  }

  ghost predicate Flags(m: Mem) {
    forall k | k in m.entries ::
      && (m.entries[k].readonly ==> !m.entries[k].write)
      && (m.entries[k].shared && !m.entries[k].readonly ==> m.entries[k].write)
  }

  /** Everything but the counts. */
  ghost predicate Wired(m: Mem) {
    Shaped(m) && TablesApart(m) && Aligned(m) && SoleWriter(m) && Flags(m)
  }

  ghost predicate Inv(m: Mem) {
    Wired(m) && Counted(m)
  }

  // ---------- frame counts ----------

  /** No frame is used by more pages than there are processes. */
  lemma UsersBounded(m: Mem, f: nat)
    requires Shaped(m) && Aligned(m)
    ensures |Users(m, f)| <= |m.spaces|
  {
    var users := Users(m, f);
    var pids := set k | k in users :: k.pid;
    PidsOf(users);
    SubsetSize(pids, m.spaces);
  }

  lemma {:induction false} PidsOf(s: set<Key>)
    requires forall j, k | j in s && k in s :: j.vpn == k.vpn
    ensures |set k | k in s :: k.pid| == |s|
  {
    if s != {} {
      var k :| k in s;
      var rest := s - {k};
      PidsOf(rest);
      assert (set j | j in s :: j.pid) == (set j | j in rest :: j.pid) + {k.pid};
    }
  }

  /** The byte-wide counters never come near wrapping, and no frame has more uses than there can be tasks. */
  lemma CountsBounded(m: Mem, f: nat)
    requires Inv(m) && UserFrame(m, f)
    ensures m.counts[f] <= NR_TASKS
  {
    UsersBounded(m, f);
    if TableUsers(m, f) != {} {
      var t :| t in TableUsers(m, f);
      assert TableUsers(m, f) == {t};
      assert Users(m, f) == {};
    }
  }

  // ---------- the operations ----------

  ghost predicate FreeFrame(m: Mem, f: nat) {
    UserFrame(m, f) && m.counts[f] == 0
  }

  lemma FreeFrameUnused(m: Mem, f: nat)
    requires Inv(m) && FreeFrame(m, f)
    ensures forall k | k in m.entries :: m.entries[k].frame != f
    ensures forall t | t in m.tables :: m.tables[t] != f
    ensures Users(m, f) == {} && TableUsers(m, f) == {}
  {
    assert Users(m, f) == {} && TableUsers(m, f) == {};
    forall k | k in m.entries
      ensures m.entries[k].frame != f
    {
      assert k !in Users(m, f);
    }
    forall t | t in m.tables
      ensures m.tables[t] != f
    {
      assert t !in TableUsers(m, f);
    }
  }

  /** A process gets an empty address space. */
  function Spawned(m: Mem, p: nat): Mem {
    m.(spaces := m.spaces + {p})
  }

  lemma SpawnedKeepsInv(m: Mem, p: nat)
    requires Inv(m) && |m.spaces| < NR_TASKS && p !in m.spaces
    ensures Inv(Spawned(m, p))
  {
    hide TablesApart, Aligned, SoleWriter, Flags;
    var m' := Spawned(m, p);
    forall f: nat
      ensures Users(m', f) == Users(m, f) && TableUsers(m', f) == TableUsers(m, f)
    {}
    SameEntriesWired(m, m');
  }

  lemma SameEntriesWired(m: Mem, m': Mem)
    requires Wired(m) && Shaped(m') && m'.entries == m.entries && m'.tables == m.tables
    ensures Wired(m')
  {}

  /** A frame for page table t. */
  function TableAdded(m: Mem, t: TableKey, f: nat): Mem
    requires f < |m.counts|
  {
    m.(tables := m.tables[t := f], counts := m.counts[f := 1])
  }

  lemma TableAddedKeepsInv(m: Mem, t: TableKey, f: nat)
    requires Inv(m) && FreeFrame(m, f) && t.pid in m.spaces && t !in m.tables
    ensures Inv(TableAdded(m, t, f))
  {
    FreeFrameUnused(m, f);
    TableAddedWired(m, t, f);
    TableAddedCounted(m, t, f);
  }

  lemma TableAddedWired(m: Mem, t: TableKey, f: nat)
    requires Wired(m) && FreeFrame(m, f) && t.pid in m.spaces && t !in m.tables
    requires forall k | k in m.entries :: m.entries[k].frame != f
    requires forall t | t in m.tables :: m.tables[t] != f
    ensures Wired(TableAdded(m, t, f))
  {}

  lemma TableAddedCounted(m: Mem, t: TableKey, f: nat)
    requires Counted(m) && FreeFrame(m, f) && t !in m.tables
    ensures Counted(TableAdded(m, t, f))
  {
    var m' := TableAdded(m, t, f);
    forall g: nat | UserFrame(m, g)
      ensures Users(m', g) == Users(m, g)
      ensures TableUsers(m', g) == if g == f then {t} else TableUsers(m, g)
    {}
  }

  /** A page on a fresh frame, as link_page leaves it and mmap then marks it. */
  function Mapped(m: Mem, k: Key, readonly: bool, shared: bool, privat: bool, f: nat): Mem
    requires f < |m.counts|
  {
    m.(entries := m.entries[k := Entry(!readonly, shared, privat, readonly, f)], counts := m.counts[f := 1])
  }

  lemma MappedKeepsInv(m: Mem, k: Key, readonly: bool, shared: bool, privat: bool, f: nat)
    requires Inv(m) && FreeFrame(m, f) && k.pid in m.spaces && k !in m.entries && TableOf(k) in m.tables
    ensures Inv(Mapped(m, k, readonly, shared, privat, f))
  {
    FreeFrameUnused(m, f);
    MappedWired(m, k, readonly, shared, privat, f);
    MappedCounted(m, k, readonly, shared, privat, f);
  }

  lemma MappedWired(m: Mem, k: Key, readonly: bool, shared: bool, privat: bool, f: nat)
    requires Wired(m) && FreeFrame(m, f) && k.pid in m.spaces && TableOf(k) in m.tables
    requires forall k | k in m.entries :: m.entries[k].frame != f
    requires forall t | t in m.tables :: m.tables[t] != f
    ensures Wired(Mapped(m, k, readonly, shared, privat, f))
  {
    hide Aligned, SoleWriter, TablesApart;
    MappedAligned(m, k, readonly, shared, privat, f);
    MappedTables(m, k, readonly, shared, privat, f);
  }

  lemma MappedAligned(m: Mem, k: Key, readonly: bool, shared: bool, privat: bool, f: nat)
    requires Aligned(m) && SoleWriter(m) && FreeFrame(m, f) && forall k | k in m.entries :: m.entries[k].frame != f
    ensures Aligned(Mapped(m, k, readonly, shared, privat, f)) && SoleWriter(Mapped(m, k, readonly, shared, privat, f))
  {}

  lemma MappedTables(m: Mem, k: Key, readonly: bool, shared: bool, privat: bool, f: nat)
    requires TablesApart(m) && FreeFrame(m, f) && forall t | t in m.tables :: m.tables[t] != f
    ensures TablesApart(Mapped(m, k, readonly, shared, privat, f))
  {}

  lemma MappedCounted(m: Mem, k: Key, readonly: bool, shared: bool, privat: bool, f: nat)
    requires Counted(m) && FreeFrame(m, f) && k !in m.entries
    ensures Counted(Mapped(m, k, readonly, shared, privat, f))
  {
    var m' := Mapped(m, k, readonly, shared, privat, f);
    forall g: nat | UserFrame(m, g)
      ensures Users(m', g) == if g == f then {k} else Users(m, g)
      ensures TableUsers(m', g) == TableUsers(m, g)
    {}
  }

  function Unmapped(m: Mem, k: Key): Mem
    requires k in m.entries && m.entries[k].frame < |m.counts| && m.counts[m.entries[k].frame] > 0
  {
    var f := m.entries[k].frame;
    m.(entries := m.entries - {k}, counts := m.counts[f := m.counts[f] - 1])
  }

  lemma UsedFrameCounted(m: Mem, k: Key)
    requires Inv(m) && k in m.entries
    ensures m.counts[m.entries[k].frame] > 0
    ensures m.counts[m.entries[k].frame] == 1 <==> Users(m, m.entries[k].frame) == {k}
  {
    var f := m.entries[k].frame;
    assert k in Users(m, f);
    assert TableUsers(m, f) == {};
    assert Users(m, f) == {k} + (Users(m, f) - {k});
  }

  lemma UnmappedKeepsInv(m: Mem, k: Key)
    requires Inv(m) && k in m.entries
    ensures m.counts[m.entries[k].frame] > 0
    ensures Inv(Unmapped(m, k))
  {
    UsedFrameCounted(m, k);
    UnmappedWired(m, k);
    UnmappedCounted(m, k);
  }

  lemma UnmappedWired(m: Mem, k: Key)
    requires Wired(m) && k in m.entries && m.counts[m.entries[k].frame] > 0
    ensures Wired(Unmapped(m, k))
  {}

  lemma UnmappedCounted(m: Mem, k: Key)
    requires Counted(m) && k in m.entries && UserFrame(m, m.entries[k].frame) && m.counts[m.entries[k].frame] > 0
    ensures Counted(Unmapped(m, k))
  {
    var m' := Unmapped(m, k);
    var f := m.entries[k].frame;
    assert k in Users(m, f);
    forall g: nat | UserFrame(m, g)
      ensures Users(m', g) == if g == f then Users(m, g) - {k} else Users(m, g)
      ensures TableUsers(m', g) == TableUsers(m, g)
    {}
  }

  // ---------- stores and their faults ----------

  /** The store itself, once the page is writable. */
  function Stored(m: Mem, k: Key, off: nat, b: Byte): Mem
    requires k in m.entries && m.entries[k].frame < |m.phys| && off < PAGE_SIZE
  {
    var f := m.entries[k].frame;
    m.(phys := m.phys[f := m.phys[f][off := b]])
  }

  /** The fault handler on a page that nobody else uses. */
  function MadeWritable(m: Mem, k: Key): Mem
    requires k in m.entries
  {
    m.(entries := m.entries[k := m.entries[k].(write := true)])
  }

  /** The fault handler on a page that others use too: the process gets a copy on frame f. */
  function Split(m: Mem, k: Key, f: nat): Mem
    requires k in m.entries && m.entries[k].frame < |m.counts| && m.counts[m.entries[k].frame] > 0
    requires f < |m.counts| == |m.phys| && f != m.entries[k].frame
  {
    var g := m.entries[k].frame;
    m.(entries := m.entries[k := Entry(true, false, false, false, f)],
       counts := m.counts[f := 1][g := m.counts[g] - 1],
       phys := m.phys[f := m.phys[g]])
  }

  lemma StoredKeepsInv(m: Mem, k: Key, off: nat, b: Byte)
    requires Inv(m) && k in m.entries && off < PAGE_SIZE
    ensures Inv(Stored(m, k, off, b))
  {
    hide TablesApart, Aligned, SoleWriter, Flags, Counted;
    var m' := Stored(m, k, off, b);
    SameEntriesWired(m, m');
    SameFramesCounted(m, m');
  }

  lemma MadeWritableKeepsInv(m: Mem, k: Key)
    requires Inv(m) && k in m.entries && !m.entries[k].readonly
    requires m.counts[m.entries[k].frame] == 1
    ensures Inv(MadeWritable(m, k))
  {
    hide TablesApart, Aligned, SoleWriter, Flags, Counted;
    UsedFrameCounted(m, k);
    MadeWritableWired(m, k);
    SameFramesCounted(m, MadeWritable(m, k));
  }

  lemma SameFramesCounted(m: Mem, m': Mem)
    requires Counted(m) && m'.counts == m.counts && m'.tables == m.tables
    requires m'.entries.Keys == m.entries.Keys
    requires forall k | k in m.entries :: m'.entries[k].frame == m.entries[k].frame
    ensures Counted(m')
  {
    forall g: nat
      ensures Users(m', g) == Users(m, g) && TableUsers(m', g) == TableUsers(m, g)
    {}
  }

  lemma MadeWritableWired(m: Mem, k: Key)
    requires Wired(m) && k in m.entries && !m.entries[k].readonly
    requires Users(m, m.entries[k].frame) == {k}
    ensures Wired(MadeWritable(m, k))
  {
    hide SoleWriter, Aligned, TablesApart;
    MadeWritableTables(m, k);
    MadeWritableSole(m, k);
    MadeWritableAligned(m, k);
  }

  lemma MadeWritableSole(m: Mem, k: Key)
    requires SoleWriter(m) && k in m.entries && Users(m, m.entries[k].frame) == {k}
    ensures SoleWriter(MadeWritable(m, k))
  {
    forall j | j in m.entries && m.entries[j].frame == m.entries[k].frame
      ensures j == k
    {
      assert j in Users(m, m.entries[k].frame);
    }
  }

  lemma MadeWritableTables(m: Mem, k: Key)
    requires TablesApart(m) && k in m.entries
    ensures TablesApart(MadeWritable(m, k))
  {}

  lemma MadeWritableAligned(m: Mem, k: Key)
    requires Aligned(m) && k in m.entries
    ensures Aligned(MadeWritable(m, k))
  {}

  lemma SplitKeepsInv(m: Mem, k: Key, f: nat)
    requires Inv(m) && k in m.entries && !m.entries[k].readonly && FreeFrame(m, f)
    ensures m.counts[m.entries[k].frame] > 0 && f != m.entries[k].frame
    ensures m.counts[m.entries[k].frame] > 1 ==> Inv(Split(m, k, f))
  {
    UsedFrameCounted(m, k);
    if m.counts[m.entries[k].frame] > 1 {
      FreeFrameUnused(m, f);
      SplitWired(m, k, f);
      SplitCounted(m, k, f);
    }
  }

  lemma SplitWired(m: Mem, k: Key, f: nat)
    requires Wired(m) && k in m.entries && FreeFrame(m, f) && m.entries[k].frame < |m.counts| == |m.phys|
    requires m.counts[m.entries[k].frame] > 1
    requires forall k | k in m.entries :: m.entries[k].frame != f
    requires forall t | t in m.tables :: m.tables[t] != f
    ensures Wired(Split(m, k, f))
  {
    hide Shaped, SoleWriter, Aligned, TablesApart, Flags;
    SplitShaped(m, k, f);
    SplitSole(m, k, f);
    SplitAligned(m, k, f);
    SplitTables(m, k, f);
  }

  lemma SplitShaped(m: Mem, k: Key, f: nat)
    requires Shaped(m) && Flags(m) && k in m.entries && FreeFrame(m, f)
    requires m.counts[m.entries[k].frame] > 0 && f != m.entries[k].frame
    ensures Shaped(Split(m, k, f)) && Flags(Split(m, k, f))
  {}

  lemma SplitSole(m: Mem, k: Key, f: nat)
    requires SoleWriter(m) && k in m.entries && m.entries[k].frame < |m.counts| && m.counts[m.entries[k].frame] > 0
    requires f < |m.counts| == |m.phys| && forall j | j in m.entries :: m.entries[j].frame != f
    ensures SoleWriter(Split(m, k, f))
  {}

  lemma SplitAligned(m: Mem, k: Key, f: nat)
    requires Aligned(m) && k in m.entries && m.entries[k].frame < |m.counts| && m.counts[m.entries[k].frame] > 0
    requires f < |m.counts| == |m.phys| && forall j | j in m.entries :: m.entries[j].frame != f
    ensures Aligned(Split(m, k, f))
  {}

  lemma SplitTables(m: Mem, k: Key, f: nat)
    requires TablesApart(m) && k in m.entries && m.entries[k].frame < |m.counts| && m.counts[m.entries[k].frame] > 0
    requires f < |m.counts| == |m.phys| && f != m.entries[k].frame && forall t | t in m.tables :: m.tables[t] != f
    ensures TablesApart(Split(m, k, f))
  {}

  lemma SplitCounted(m: Mem, k: Key, f: nat)
    requires Counted(m) && k in m.entries && FreeFrame(m, f) && UserFrame(m, m.entries[k].frame)
    requires m.counts[m.entries[k].frame] > 1 && |m.phys| == |m.counts|
    ensures Counted(Split(m, k, f))
  {
    var m' := Split(m, k, f);
    var g := m.entries[k].frame;
    assert k in Users(m, g);
    forall h: nat | UserFrame(m, h)
      ensures Users(m', h) == if h == f then Users(m, h) + {k} else if h == g then Users(m, h) - {k} else Users(m, h)
      ensures TableUsers(m', h) == TableUsers(m, h)
    {}
    assert Users(m, f) == {} && TableUsers(m, f) == {};
  }

  // ---------- fork ----------

  /** Process p has a page on frame f. */
  ghost predicate UsedBy(m: Mem, p: nat, f: nat) {
    exists k :: k in m.entries && k.pid == p && m.entries[k].frame == f
  }

  function ShareEntry(e: Entry): Entry {
    e.(write := e.write && e.shared)
  }

  /** The page of p that the page of the child c is a copy of. */
  function Origin(p: nat, c: nat, k: Key): Key {
    if k.pid == c then Key(p, k.vpn) else k
  }

  function TablesOf(m: Mem, p: nat): set<nat> {
    set t | t in m.tables && t.pid == p :: t.didx
  }

  /** The frames the child's page tables are put in: one for each table of the parent, all free, all different. */
  ghost predicate Fresh(m: Mem, p: nat, tf: map<nat, nat>) {
    && tf.Keys == TablesOf(m, p)
    && (forall d | d in tf :: FreeFrame(m, tf[d]))
    && (forall d, e | d in tf && e in tf && tf[d] == tf[e] :: d == e)
  }

  ghost function ForkedEntries(m: Mem, p: nat, c: nat): map<Key, Entry> {
    map k | k in m.entries.Keys + (set j | j in m.entries && j.pid == p :: Key(c, j.vpn)) && Origin(p, c, k) in m.entries ::
      if k.pid == p || k.pid == c then ShareEntry(m.entries[Origin(p, c, k)]) else m.entries[k]
  }

  ghost function ForkedTables(m: Mem, p: nat, c: nat, tf: map<nat, nat>): map<TableKey, nat> {
    map t | t in m.tables.Keys + (set d | d in tf :: TableKey(c, d)) && (t.pid == c ==> t.didx in tf) && (t.pid != c ==> t in m.tables) ::
      if t.pid == c then tf[t.didx] else m.tables[t]
  }

  /** Copying the address space of p for c. */
  ghost function Forked(m: Mem, p: nat, c: nat, tf: map<nat, nat>): Mem {
    Mem(seq(|m.counts|, (f: nat) requires f < |m.counts| =>
          m.counts[f] + (if UsedBy(m, p, f) then 1 else 0) + (if f in tf.Values then 1 else 0)),
        ForkedEntries(m, p, c), ForkedTables(m, p, c, tf), m.spaces + {c}, m.phys)
  }

  lemma ForkedKeepsInv(m: Mem, p: nat, c: nat, tf: map<nat, nat>)
    requires Inv(m) && p in m.spaces && c !in m.spaces && |m.spaces| < NR_TASKS && Fresh(m, p, tf)
    ensures Inv(Forked(m, p, c, tf))
  {
    forall d | d in tf
      ensures forall k | k in m.entries :: m.entries[k].frame != tf[d]
      ensures forall t | t in m.tables :: m.tables[t] != tf[d]
    {
      FreeFrameUnused(m, tf[d]);
    }
    ForkedWired(m, p, c, tf);
    ForkedCounted(m, p, c, tf);
  }

  /** Frames of the child's page tables are used by nothing before. */
  ghost predicate Unused(m: Mem, tf: map<nat, nat>) {
    && (forall d, k | d in tf && k in m.entries :: m.entries[k].frame != tf[d])
    && (forall d, t | d in tf && t in m.tables :: m.tables[t] != tf[d])
  }

  /** Each page after the fork has the frame of its origin; only pages of the two processes change, and only by losing write. */
  lemma ForkedEntry(m: Mem, p: nat, c: nat, tf: map<nat, nat>, k: Key)
    requires Shaped(m) && c !in m.spaces && p in m.spaces
    ensures k in Forked(m, p, c, tf).entries <==> Origin(p, c, k) in m.entries
    ensures Origin(p, c, k) in m.entries ==>
              Forked(m, p, c, tf).entries[k]
              == if k.pid == p || k.pid == c then ShareEntry(m.entries[Origin(p, c, k)]) else m.entries[k]
  {
    if k.pid == c && Key(p, k.vpn) in m.entries {
      assert k == Key(c, Key(p, k.vpn).vpn);
      assert k in (set j | j in m.entries && j.pid == p :: Key(c, j.vpn));
    }
  }

  lemma ForkedTable(m: Mem, p: nat, c: nat, tf: map<nat, nat>, t: TableKey)
    requires Shaped(m) && c !in m.spaces && p in m.spaces
    ensures t in Forked(m, p, c, tf).tables <==> if t.pid == c then t.didx in tf else t in m.tables
    ensures t in Forked(m, p, c, tf).tables ==>
              Forked(m, p, c, tf).tables[t] == if t.pid == c then tf[t.didx] else m.tables[t]
  {
    if t.pid == c && t.didx in tf {
      assert t == TableKey(c, t.didx);
    }
  }

  lemma ForkedWired(m: Mem, p: nat, c: nat, tf: map<nat, nat>)
    requires Wired(m) && p in m.spaces && c !in m.spaces && |m.spaces| < NR_TASKS && Fresh(m, p, tf) && Unused(m, tf)
    ensures Wired(Forked(m, p, c, tf))
  {
    ForkedShaped(m, p, c, tf);
    ForkedTablesApart(m, p, c, tf);
    ForkedPages(m, p, c, tf);
  }

  lemma ForkedShaped(m: Mem, p: nat, c: nat, tf: map<nat, nat>)
    requires Shaped(m) && p in m.spaces && c !in m.spaces && |m.spaces| < NR_TASKS && Fresh(m, p, tf)
    ensures Shaped(Forked(m, p, c, tf))
  {
    var m' := Forked(m, p, c, tf);
    forall k | k in m'.entries
      ensures UserFrame(m', m'.entries[k].frame) && k.pid in m'.spaces && TableOf(k) in m'.tables
    {
      ForkedEntry(m, p, c, tf, k);
      var o := Origin(p, c, k);
      assert TableOf(o) in m.tables;
      if k.pid == c {
        assert TableOf(o).didx in TablesOf(m, p);
      }
      ForkedTable(m, p, c, tf, TableOf(k));
    }
    forall t | t in m'.tables
      ensures UserFrame(m', m'.tables[t]) && t.pid in m'.spaces
    {
      ForkedTable(m, p, c, tf, t);
    }
  }

  lemma ForkedTablesApart(m: Mem, p: nat, c: nat, tf: map<nat, nat>)
    requires Shaped(m) && TablesApart(m) && p in m.spaces && c !in m.spaces && Fresh(m, p, tf) && Unused(m, tf)
    ensures TablesApart(Forked(m, p, c, tf))
  {
    var m' := Forked(m, p, c, tf);
    forall t, u | t in m'.tables && u in m'.tables && m'.tables[t] == m'.tables[u]
      ensures t == u
    {
      ForkedTable(m, p, c, tf, t);
      ForkedTable(m, p, c, tf, u);
    }
    forall t, k | t in m'.tables && k in m'.entries
      ensures m'.tables[t] != m'.entries[k].frame
    {
      ForkedTable(m, p, c, tf, t);
      ForkedEntry(m, p, c, tf, k);
    }
  }

  lemma ForkedPages(m: Mem, p: nat, c: nat, tf: map<nat, nat>)
    requires Shaped(m) && Aligned(m) && SoleWriter(m) && Flags(m) && p in m.spaces && c !in m.spaces
    ensures Aligned(Forked(m, p, c, tf)) && SoleWriter(Forked(m, p, c, tf)) && Flags(Forked(m, p, c, tf))
  {
    hide Aligned, SoleWriter, Flags;
    var m' := Forked(m, p, c, tf);
    forall k | k in m'.entries
      ensures FromOrigin(m, m', p, c, k)
    {
      ForkedEntry(m, p, c, tf, k);
    }
    OriginsAligned(m, m', p, c);
    OriginsSole(m, m', p, c);
    OriginsFlags(m, m', p, c);
  }

  /** Page k after a fork of p into c is the page it comes from, shared if it belongs to one of the two. */
  ghost predicate FromOrigin(m: Mem, m': Mem, p: nat, c: nat, k: Key) {
    && k in m'.entries && Origin(p, c, k) in m.entries
    && m'.entries[k] == if k.pid == p || k.pid == c then ShareEntry(m.entries[Origin(p, c, k)]) else m.entries[k]
  }

  lemma OriginsAligned(m: Mem, m': Mem, p: nat, c: nat)
    requires Aligned(m) && forall k | k in m'.entries :: FromOrigin(m, m', p, c, k)
    ensures Aligned(m')
  {
    forall j, k | j in m'.entries && k in m'.entries && m'.entries[j].frame == m'.entries[k].frame
      ensures j.vpn == k.vpn && m'.entries[j].shared == m'.entries[k].shared
    {
      assert FromOrigin(m, m', p, c, j) && FromOrigin(m, m', p, c, k);
    }
  }

  lemma OriginsSole(m: Mem, m': Mem, p: nat, c: nat)
    requires SoleWriter(m) && forall k | k in m'.entries :: FromOrigin(m, m', p, c, k)
    ensures SoleWriter(m')
  {
    forall j, k | j in m'.entries && k in m'.entries && m'.entries[j].frame == m'.entries[k].frame
                  && m'.entries[j].write && !m'.entries[j].shared
      ensures j == k
    {
      assert FromOrigin(m, m', p, c, j) && FromOrigin(m, m', p, c, k);
    }
  }

  lemma OriginsFlags(m: Mem, m': Mem, p: nat, c: nat)
    requires Flags(m) && forall k | k in m'.entries :: FromOrigin(m, m', p, c, k)
    ensures Flags(m')
  {
    forall k | k in m'.entries
      ensures m'.entries[k].readonly ==> !m'.entries[k].write
      ensures m'.entries[k].shared && !m'.entries[k].readonly ==> m'.entries[k].write
    {
      assert FromOrigin(m, m', p, c, k);
    }
  }

  lemma ForkedCounted(m: Mem, p: nat, c: nat, tf: map<nat, nat>)
    requires Wired(m) && Counted(m) && p in m.spaces && c !in m.spaces && Fresh(m, p, tf)
    ensures Counted(Forked(m, p, c, tf))
  {
    var m' := Forked(m, p, c, tf);
    forall f: nat | UserFrame(m, f)
      ensures |Users(m', f)| == |Users(m, f)| + (if UsedBy(m, p, f) then 1 else 0)
      ensures |TableUsers(m', f)| == |TableUsers(m, f)| + (if f in tf.Values then 1 else 0)
    {
      ForkedUsers(m, p, c, tf, f);
      ForkedTableUsers(m, p, c, tf, f);
    }
  }

  lemma ForkedUsers(m: Mem, p: nat, c: nat, tf: map<nat, nat>, f: nat)
    requires Shaped(m) && Aligned(m) && p in m.spaces && c !in m.spaces
    ensures |Users(Forked(m, p, c, tf), f)| == |Users(m, f)| + (if UsedBy(m, p, f) then 1 else 0)
  {
    if UsedBy(m, p, f) {
      var j :| j in m.entries && j.pid == p && m.entries[j].frame == f;
      assert Key(c, j.vpn) !in Users(m, f);
      ForkedUsersSet(m, p, c, tf, f, {Key(c, j.vpn)});
    } else {
      ForkedUsersSet(m, p, c, tf, f, {});
    }
  }

  /** The frame's users after the fork: those before, and the child's page if the parent has one there. */
  lemma ForkedUsersSet(m: Mem, p: nat, c: nat, tf: map<nat, nat>, f: nat, added: set<Key>)
    requires Shaped(m) && p in m.spaces && c !in m.spaces
    requires forall k: Key | k.pid == c :: k in added <==> Key(p, k.vpn) in Users(m, f)
    requires forall k | k in added :: k.pid == c
    ensures Users(Forked(m, p, c, tf), f) == Users(m, f) + added
  {
    forall k
      ensures k in Users(Forked(m, p, c, tf), f) <==> k in Users(m, f) + added
    {
      ForkedEntry(m, p, c, tf, k);
    }
  }

  lemma ForkedTableUsers(m: Mem, p: nat, c: nat, tf: map<nat, nat>, f: nat)
    requires Shaped(m) && p in m.spaces && c !in m.spaces && Fresh(m, p, tf)
    ensures |TableUsers(Forked(m, p, c, tf), f)| == |TableUsers(m, f)| + (if f in tf.Values then 1 else 0)
  {
    var m' := Forked(m, p, c, tf);
    forall t
      ensures t in TableUsers(m', f) <==> if t.pid == c then t.didx in tf && tf[t.didx] == f else t in TableUsers(m, f)
    {
      ForkedTable(m, p, c, tf, t);
    }
    if f in tf.Values {
      var d :| d in tf && tf[d] == f;
      assert TableUsers(m', f) == TableUsers(m, f) + {TableKey(c, d)};
    } else {
      assert TableUsers(m', f) == TableUsers(m, f);
    }
  }

  // ---------- exit ----------

  /** Process p has a page table on frame f. */
  ghost predicate TableBy(m: Mem, p: nat, f: nat) {
    exists t :: t in m.tables && t.pid == p && m.tables[t] == f
  }

  function WithoutPages(entries: map<Key, Entry>, p: nat): map<Key, Entry> {
    map k | k in entries && k.pid != p :: entries[k]
  }

  function WithoutTables(tables: map<TableKey, nat>, p: nat): map<TableKey, nat> {
    map t | t in tables && t.pid != p :: tables[t]
  }

  /** Dropping every page and page table of p. */
  ghost function Exited(m: Mem, p: nat): Mem {
    Mem(seq(|m.counts|, (f: nat) requires f < |m.counts| => ExitedCount(m, p, f)),
        WithoutPages(m.entries, p), WithoutTables(m.tables, p), m.spaces - {p}, m.phys)
  }

  ghost function ExitedCount(m: Mem, p: nat, f: nat): nat
    requires f < |m.counts|
  {
    if UsedBy(m, p, f) || TableBy(m, p, f) then if m.counts[f] > 0 then m.counts[f] - 1 else 0 else m.counts[f]
  }

  lemma ExitedUsers(m: Mem, p: nat, f: nat)
    requires Aligned(m)
    ensures |Users(Exited(m, p), f)| == |Users(m, f)| - (if UsedBy(m, p, f) then 1 else 0)
  {
    if UsedBy(m, p, f) {
      var j :| j in m.entries && j.pid == p && m.entries[j].frame == f;
      ExitedUsersSet(m, p, f, {j});
    } else {
      ExitedUsersSet(m, p, f, {});
    }
  }

  lemma ExitedUsersSet(m: Mem, p: nat, f: nat, dropped: set<Key>)
    requires forall k | k in Users(m, f) && k.pid == p :: k in dropped
    requires forall k | k in dropped :: k in Users(m, f) && k.pid == p
    ensures Users(Exited(m, p), f) == Users(m, f) - dropped
    ensures |Users(Exited(m, p), f)| == |Users(m, f)| - |dropped|
  {
    assert Users(m, f) == Users(Exited(m, p), f) + dropped;
  }

  lemma ExitedTableUsers(m: Mem, p: nat, f: nat)
    requires TablesApart(m)
    ensures |TableUsers(Exited(m, p), f)| == |TableUsers(m, f)| - (if TableBy(m, p, f) then 1 else 0)
    ensures !(UsedBy(m, p, f) && TableBy(m, p, f))
  {
    var left := TableUsers(Exited(m, p), f);
    ExitedTableSet(m, p, f);
    if TableBy(m, p, f) {
      var t :| t in m.tables && t.pid == p && m.tables[t] == f;
      assert forall u | u in TableUsers(m, f) :: u == t;
      assert TableUsers(m, f) == left + {t};
    } else {
      assert TableUsers(m, f) == left;
    }
  }

  lemma ExitedTableSet(m: Mem, p: nat, f: nat)
    ensures forall t :: t in TableUsers(Exited(m, p), f) <==> t in TableUsers(m, f) && t.pid != p
  {}

  lemma ExitedKeepsInv(m: Mem, p: nat)
    requires Inv(m) && p in m.spaces
    ensures Inv(Exited(m, p))
  {
    ExitedWired(m, p);
    forall f: nat | UserFrame(m, f)
      ensures Exited(m, p).counts[f] == |Users(Exited(m, p), f)| + |TableUsers(Exited(m, p), f)|
    {
      ExitedUsers(m, p, f);
      ExitedTableUsers(m, p, f);
    }
  }

  lemma ExitedWired(m: Mem, p: nat)
    requires Wired(m) && p in m.spaces
    ensures Wired(Exited(m, p))
  {
    var m' := Exited(m, p);
    forall f: nat | f < |m.counts| && f < KERNEL_FRAMES
      ensures m'.counts[f] > 0
    {
      assert !UsedBy(m, p, f) && !TableBy(m, p, f);
    }
  }

  // ---------- the reference: fork copies ----------

  /** A page of a process: its contents, whether it is read-only, and the group of pages that share its contents. */
  datatype Cell = Cell(readonly: bool, group: Group, data: Page)

  datatype Group = Alone | Group(id: nat)

  type Eager = map<Key, Cell>

  function Abs(m: Mem): Eager {
    map k | k in m.entries && m.entries[k].frame < |m.phys| :: CellOf(m, k)
  }

  /** A store is seen on the page itself and on the pages of its group. */
  function EagerStored(e: Eager, k: Key, off: nat, b: Byte): Eager
    requires k in e && off < PAGE_SIZE
  {
    map j | j in e ::
      if j == k || (e[k].group.Group? && e[j].group == e[k].group) then e[j].(data := e[k].data[off := b]) else e[j]
  }

  /** Fork copies every page; pages of a group stay in it. */
  function EagerForked(e: Eager, p: nat, c: nat): Eager {
    map k | k in e.Keys + (set j | j in e && j.pid == p :: Key(c, j.vpn)) && Origin(p, c, k) in e :: e[Origin(p, c, k)]
  }

  function EagerExited(e: Eager, p: nat): Eager {
    map k | k in e && k.pid != p :: e[k]
  }

  lemma StoredAbs(m: Mem, k: Key, off: nat, b: Byte)
    requires Shaped(m) && Aligned(m) && SoleWriter(m)
    requires k in m.entries && m.entries[k].write && off < PAGE_SIZE
    ensures Abs(Stored(m, k, off, b)) == EagerStored(Abs(m), k, off, b)
  {
    forall j | j in m.entries
      ensures Abs(Stored(m, k, off, b))[j] == EagerStored(Abs(m), k, off, b)[j]
    {
      assert m.entries[j].frame == m.entries[k].frame ==> j == k || m.entries[k].shared;
    }
  }

  lemma MadeWritableAbs(m: Mem, k: Key)
    requires Shaped(m) && k in m.entries
    ensures Abs(MadeWritable(m, k)) == Abs(m)
  {}

  lemma SplitAbs(m: Mem, k: Key, f: nat)
    requires Shaped(m) && k in m.entries && !m.entries[k].readonly && !m.entries[k].shared && f < |m.phys|
    requires m.counts[m.entries[k].frame] > 0
    requires forall j | j in m.entries :: m.entries[j].frame != f
    ensures |Split(m, k, f).phys| == |m.phys|
    ensures Abs(Split(m, k, f)) == Abs(m)
  {}

  function CellOf(m: Mem, k: Key): Cell
    requires k in m.entries && m.entries[k].frame < |m.phys|
  {
    var e := m.entries[k];
    Cell(e.readonly, if e.shared then Group(e.frame) else Alone, m.phys[e.frame])
  }

  lemma ForkedAbs(m: Mem, p: nat, c: nat, tf: map<nat, nat>)
    requires Shaped(m) && p in m.spaces && c !in m.spaces
    ensures Abs(Forked(m, p, c, tf)) == EagerForked(Abs(m), p, c)
  {
    hide Forked, EagerForked, Abs;
    forall k
      ensures k in Abs(Forked(m, p, c, tf)) <==> k in EagerForked(Abs(m), p, c)
      ensures k in Abs(Forked(m, p, c, tf)) ==> Abs(Forked(m, p, c, tf))[k] == EagerForked(Abs(m), p, c)[k]
    {
      ForkedCell(m, p, c, tf, k);
    }
  }

  lemma ForkedCell(m: Mem, p: nat, c: nat, tf: map<nat, nat>, k: Key)
    requires Shaped(m) && p in m.spaces && c !in m.spaces
    ensures k in Abs(Forked(m, p, c, tf)) <==> k in EagerForked(Abs(m), p, c)
    ensures k in Abs(Forked(m, p, c, tf)) ==> Abs(Forked(m, p, c, tf))[k] == EagerForked(Abs(m), p, c)[k]
  {
    ForkedEntry(m, p, c, tf, k);
    assert Forked(m, p, c, tf).phys == m.phys;
    if k.pid == c && Key(p, k.vpn) in m.entries {
      assert k == Key(c, Key(p, k.vpn).vpn);
    }
  }
}
