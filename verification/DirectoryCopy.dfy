/** The states in the middle of copying and of freeing a page directory, table by table and page by page. */
module DirectoryCopy {
  import opened Limits
  import opened Paging

  /** Process p has a page on frame f with a number below n. */
  ghost predicate UsedBelow(m: Mem, p: nat, f: nat, n: nat) {
    exists k :: k in m.entries && k.pid == p && k.vpn < n && m.entries[k].frame == f
  }

  ghost function Bit(b: bool): nat {
    if b then 1 else 0
  }

  /** The entries once the parent's pages below n are write-protected and the child has those of the tables below d. */
  ghost function CopiedEntries(m: Mem, p: nat, c: nat, n: nat, d: nat): map<Key, Entry> {
    map k | k in m.entries.Keys + (set j | j in m.entries && j.pid == p :: Key(c, j.vpn))
            && Origin(p, c, k) in m.entries && (k.pid == c ==> k.vpn < d * TABLE_ENTRIES) ::
      if k.pid == c || (k.pid == p && k.vpn < n) then ShareEntry(m.entries[Origin(p, c, k)]) else m.entries[k]
  }

  /** The child's page tables so far. */
  ghost predicate TablesSoFar(m: Mem, p: nat, tf: map<nat, nat>, d: nat) {
    && (forall e: nat :: e in tf <==> e < d && TableKey(p, e) in m.tables)
    && (forall e | e in tf :: FreeFrame(m, tf[e]))
    && (forall e, g | e in tf && g in tf && tf[e] == tf[g] :: e == g)
  }

  /** s is the state in the middle of copying the address space that p has in m: pages below n and tables below d are done. */
  ghost predicate Copying(m: Mem, s: Mem, p: nat, c: nat, tf: map<nat, nat>, n: nat, d: nat) {
    && |s.counts| == |m.counts|
    && (forall f: nat | f < |m.counts| :: s.counts[f] == m.counts[f] + Bit(UsedBelow(m, p, f, n)) + Bit(f in tf.Values))
    && s.entries == CopiedEntries(m, p, c, n, d)
    && s.tables == ForkedTables(m, p, c, tf)
    && TablesSoFar(m, p, tf, d)
    && s.spaces == m.spaces && s.phys == m.phys
  }

  /** What every step may rely on. */
  ghost predicate Ready(m: Mem, p: nat, c: nat) {
    Inv(m) && p in m.spaces && c !in m.spaces
  }

  lemma CopyingStart(m: Mem, p: nat, c: nat, d: nat)
    requires Ready(m, p, c)
    requires forall k | k in m.entries :: k.vpn >= d * TABLE_ENTRIES
    requires forall t | t in m.tables :: t.didx >= d
    ensures Copying(m, m, p, c, map[], d * TABLE_ENTRIES, d)
  {
    hide TablesApart, Aligned, SoleWriter, Flags, Counted;
  }

  lemma UsedBelowStep(m: Mem, p: nat, f: nat, n: nat)
    ensures UsedBelow(m, p, f, n + 1) <==>
            UsedBelow(m, p, f, n) || (Key(p, n) in m.entries && m.entries[Key(p, n)].frame == f)
  {
    if UsedBelow(m, p, f, n + 1) {
      var j :| j in m.entries && j.pid == p && j.vpn < n + 1 && m.entries[j].frame == f;
      assert j.vpn < n || j == Key(p, n);
    }
    if UsedBelow(m, p, f, n) {
      var j :| j in m.entries && j.pid == p && j.vpn < n && m.entries[j].frame == f;
      assert j.vpn < n + 1;
    }
  }

  lemma CopiedEntriesStep(m: Mem, p: nat, c: nat, n: nat, d: nat)
    requires p != c && Key(p, n) in m.entries
    ensures Key(p, n) in CopiedEntries(m, p, c, n, d)
    ensures CopiedEntries(m, p, c, n, d)[Key(p, n)] == m.entries[Key(p, n)]
    ensures CopiedEntries(m, p, c, n + 1, d)
            == CopiedEntries(m, p, c, n, d)[Key(p, n) := ShareEntry(m.entries[Key(p, n)])]
  {}

  /** The counter of a page about to be copied has not been touched before, and is far from wrapping. */
  lemma FirstUse(m: Mem, p: nat, n: nat, tf: map<nat, nat>, d: nat)
    requires Inv(m) && Key(p, n) in m.entries && TablesSoFar(m, p, tf, d)
    ensures var f := m.entries[Key(p, n)].frame;
            f < |m.counts| && !UsedBelow(m, p, f, n) && f !in tf.Values && 0 < m.counts[f] <= NR_TASKS
  {
    UsedFrameCounted(m, Key(p, n));
    CountsBounded(m, m.entries[Key(p, n)].frame);
  }

  /** One page of the parent: protected, and counted once more. */
  lemma CopyingPage(m: Mem, s: Mem, p: nat, c: nat, tf: map<nat, nat>, n: nat, d: nat)
    requires Ready(m, p, c) && Copying(m, s, p, c, tf, n, d) && Key(p, n) in m.entries
    ensures Key(p, n) in s.entries && s.entries[Key(p, n)] == m.entries[Key(p, n)]
    ensures var f := m.entries[Key(p, n)].frame;
            && f < |s.counts| && 0 < s.counts[f] <= NR_TASKS
            && Copying(m, s.(counts := s.counts[f := s.counts[f] + 1],
                             entries := s.entries[Key(p, n) := ShareEntry(s.entries[Key(p, n)])]),
                       p, c, tf, n + 1, d)
  {
    hide Inv, UsedBelow, CopiedEntries, TablesSoFar, ForkedTables;
    FirstUse(m, p, n, tf, d);
    CopiedEntriesStep(m, p, c, n, d);
    forall g: nat
      ensures UsedBelow(m, p, g, n + 1) <==> UsedBelow(m, p, g, n) || m.entries[Key(p, n)].frame == g
    {
      UsedBelowStep(m, p, g, n);
    }
  }

  /** Pages the parent does not have. */
  lemma CopyingNoPage(m: Mem, s: Mem, p: nat, c: nat, tf: map<nat, nat>, n: nat, n': nat, d: nat)
    requires Copying(m, s, p, c, tf, n, d) && n <= n'
    requires forall k | k in m.entries && k.pid == p :: !(n <= k.vpn < n')
    ensures Copying(m, s, p, c, tf, n', d)
  {
    forall g: nat
      ensures UsedBelow(m, p, g, n') == UsedBelow(m, p, g, n)
    {
      if UsedBelow(m, p, g, n) {
        var j :| j in m.entries && j.pid == p && j.vpn < n && m.entries[j].frame == g;
        assert j.vpn < n';
      }
    }
    assert CopiedEntries(m, p, c, n', d) == CopiedEntries(m, p, c, n, d);
  }

  // ---------- the end of a table ----------

  /** The pages of table d of process p, as pages of c. */
  function ChildPages(entries: map<Key, Entry>, p: nat, c: nat, d: nat): map<Key, Entry> {
    map k | k in (set j | j in entries && j.pid == p :: Key(c, j.vpn)) && Key(p, k.vpn) in entries && k.vpn / TABLE_ENTRIES == d ::
      entries[Key(p, k.vpn)]
  }

  lemma CopiedEntriesTable(m: Mem, p: nat, c: nat, d: nat)
    requires Shaped(m) && p != c && c !in m.spaces
    ensures var n := (d + 1) * TABLE_ENTRIES;
            CopiedEntries(m, p, c, n, d + 1)
            == CopiedEntries(m, p, c, n, d) + ChildPages(CopiedEntries(m, p, c, n, d), p, c, d)
  {
    var n := (d + 1) * TABLE_ENTRIES;
    var before := CopiedEntries(m, p, c, n, d);
    forall k: Key
      ensures k in CopiedEntries(m, p, c, n, d + 1) <==> k in before + ChildPages(before, p, c, d)
      ensures k in CopiedEntries(m, p, c, n, d + 1) ==>
                CopiedEntries(m, p, c, n, d + 1)[k] == (before + ChildPages(before, p, c, d))[k]
    {}
  }

  /** A frame for the child's table: free in s means free in m and not yet taken. */
  lemma CopyingTable(m: Mem, s: Mem, p: nat, c: nat, tf: map<nat, nat>, d: nat, page: nat)
    requires Ready(m, p, c) && TableKey(p, d) in m.tables
    requires Copying(m, s, p, c, tf, (d + 1) * TABLE_ENTRIES, d) && FreeFrame(s, page)
    ensures Copying(m, s.(counts := s.counts[page := 1], tables := s.tables[TableKey(c, d) := page],
                          entries := s.entries + ChildPages(s.entries, p, c, d)),
                    p, c, tf[d := page], (d + 1) * TABLE_ENTRIES, d + 1)
  {
    CopiedEntriesTable(m, p, c, d);
    CopyingTableFrames(m, s, p, c, tf, d, page);
  }

  lemma CopyingTableFrames(m: Mem, s: Mem, p: nat, c: nat, tf: map<nat, nat>, d: nat, page: nat)
    requires Shaped(m) && p != c && c !in m.spaces && TableKey(p, d) in m.tables
    requires Copying(m, s, p, c, tf, (d + 1) * TABLE_ENTRIES, d) && FreeFrame(s, page)
    ensures TablesSoFar(m, p, tf[d := page], d + 1)
    ensures s.tables[TableKey(c, d) := page] == ForkedTables(m, p, c, tf[d := page])
    ensures page !in tf.Values && m.counts[page] == 0 && !UsedBelow(m, p, page, (d + 1) * TABLE_ENTRIES)
    ensures forall f: nat :: f in tf[d := page].Values <==> f == page || f in tf.Values
  {
    hide CopiedEntries, UsedBelow;
    NewValue(tf, d, page);
  }

  lemma NewValue(tf: map<nat, nat>, d: nat, page: nat)
    requires d !in tf
    ensures forall f: nat :: f in tf[d := page].Values <==> f == page || f in tf.Values
  {
    var tf' := tf[d := page];
    assert tf'[d] == page;
    assert forall e | e in tf :: tf'[e] == tf[e];
    forall f: nat | f in tf.Values
      ensures f in tf'.Values
    {
      var e :| e in tf && tf[e] == f;
      assert tf'[e] == f;
    }
  }

  /** A directory slot the parent does not use. */
  lemma CopyingNoTable(m: Mem, s: Mem, p: nat, c: nat, tf: map<nat, nat>, d: nat)
    requires Ready(m, p, c) && TableKey(p, d) !in m.tables && Copying(m, s, p, c, tf, d * TABLE_ENTRIES, d)
    ensures Copying(m, s, p, c, tf, (d + 1) * TABLE_ENTRIES, d + 1)
  {
    hide TablesApart, Aligned, SoleWriter, Flags, Counted, UsedBelow, ForkedTables, CopiedEntries;
    forall k | k in m.entries && k.pid == p
      ensures k.vpn / TABLE_ENTRIES != d
    {
      assert TableOf(k) in m.tables;
    }
    CopyingNoPage(m, s, p, c, tf, d * TABLE_ENTRIES, (d + 1) * TABLE_ENTRIES, d);
    NoChildPages(m, p, c, d);
  }

  lemma NoChildPages(m: Mem, p: nat, c: nat, d: nat)
    requires Shaped(m) && p != c && c !in m.spaces
    requires forall k | k in m.entries && k.pid == p :: k.vpn / TABLE_ENTRIES != d
    ensures CopiedEntries(m, p, c, (d + 1) * TABLE_ENTRIES, d + 1) == CopiedEntries(m, p, c, (d + 1) * TABLE_ENTRIES, d)
  {
    var n := (d + 1) * TABLE_ENTRIES;
    forall k: Key
      ensures k in CopiedEntries(m, p, c, n, d + 1) <==> k in CopiedEntries(m, p, c, n, d)
      ensures k in CopiedEntries(m, p, c, n, d) ==> CopiedEntries(m, p, c, n, d + 1)[k] == CopiedEntries(m, p, c, n, d)[k]
    {}
  }

  /** When every table has been visited, the copy is the fork. */
  lemma CopyingDone(m: Mem, s: Mem, p: nat, c: nat, tf: map<nat, nat>, d: nat)
    requires Ready(m, p, c) && Copying(m, s, p, c, tf, d * TABLE_ENTRIES, d)
    requires forall t | t in m.tables :: t.didx < d
    ensures Fresh(m, p, tf)
    ensures s.(spaces := m.spaces + {c}) == Forked(m, p, c, tf)
  {
    hide TablesApart, Aligned, SoleWriter, Flags, Counted, UsedBelow, UsedBy, ForkedTables, CopiedEntries, ForkedEntries;
    forall k | k in m.entries
      ensures k.vpn < d * TABLE_ENTRIES
    {
      assert TableOf(k) in m.tables;
    }
    AllCopied(m, p, c, d);
    forall f: nat
      ensures UsedBelow(m, p, f, d * TABLE_ENTRIES) == UsedBy(m, p, f)
    {
      AllBelow(m, p, f, d * TABLE_ENTRIES);
    }
  }

  lemma AllBelow(m: Mem, p: nat, f: nat, n: nat)
    requires forall k | k in m.entries :: k.vpn < n
    ensures UsedBelow(m, p, f, n) == UsedBy(m, p, f)
  {}

  lemma AllCopied(m: Mem, p: nat, c: nat, d: nat)
    requires forall k | k in m.entries :: k.vpn < d * TABLE_ENTRIES
    ensures CopiedEntries(m, p, c, d * TABLE_ENTRIES, d) == ForkedEntries(m, p, c)
  {}

  // ---------- freeing a directory ----------

  ghost predicate TableBelow(m: Mem, p: nat, f: nat, d: nat) {
    exists t :: t in m.tables && t.pid == p && t.didx < d && m.tables[t] == f
  }

  /** counts is what is left of the counters of m once the pages of p below n and its tables below d have been put back. */
  ghost predicate Releasing(m: Mem, counts: seq<nat>, p: nat, n: nat, d: nat) {
    && |counts| == |m.counts|
    && forall f: nat | f < |m.counts| :: counts[f] == m.counts[f] - Bit(UsedBelow(m, p, f, n)) - Bit(TableBelow(m, p, f, d))
  }

  lemma ReleasingStart(m: Mem, p: nat, d: nat)
    requires forall k | k in m.entries :: k.vpn >= d * TABLE_ENTRIES
    requires forall t | t in m.tables :: t.didx >= d
    ensures Releasing(m, m.counts, p, d * TABLE_ENTRIES, d)
  {}

  lemma ReleasingPage(m: Mem, counts: seq<nat>, p: nat, n: nat, d: nat)
    requires Inv(m) && Key(p, n) in m.entries && Releasing(m, counts, p, n, d)
    ensures var f := m.entries[Key(p, n)].frame;
            UserFrame(m, f) && 0 < counts[f] && Releasing(m, counts[f := counts[f] - 1], p, n + 1, d)
  {
    hide UsedBelow, TableBelow, Counted, SoleWriter, Flags;
    var f := m.entries[Key(p, n)].frame;
    UsedFrameCounted(m, Key(p, n));
    PageNotReleased(m, p, n, d);
    forall g: nat
      ensures UsedBelow(m, p, g, n + 1) <==> UsedBelow(m, p, g, n) || f == g
    {
      UsedBelowStep(m, p, g, n);
    }
  }

  lemma PageNotReleased(m: Mem, p: nat, n: nat, d: nat)
    requires Aligned(m) && TablesApart(m) && Key(p, n) in m.entries
    ensures !UsedBelow(m, p, m.entries[Key(p, n)].frame, n)
    ensures !TableBelow(m, p, m.entries[Key(p, n)].frame, d)
  {}

  lemma ReleasingNoPage(m: Mem, counts: seq<nat>, p: nat, n: nat, n': nat, d: nat)
    requires Releasing(m, counts, p, n, d) && n <= n'
    requires forall k | k in m.entries && k.pid == p :: !(n <= k.vpn < n')
    ensures Releasing(m, counts, p, n', d)
  {
    forall g: nat
      ensures UsedBelow(m, p, g, n') == UsedBelow(m, p, g, n)
    {
      if UsedBelow(m, p, g, n) {
        var j :| j in m.entries && j.pid == p && j.vpn < n && m.entries[j].frame == g;
        assert j.vpn < n';
      }
    }
  }

  /** The table itself, after its pages. */
  lemma ReleasingTable(m: Mem, counts: seq<nat>, p: nat, n: nat, d: nat)
    requires Inv(m) && TableKey(p, d) in m.tables && Releasing(m, counts, p, n, d)
    ensures var f := m.tables[TableKey(p, d)];
            UserFrame(m, f) && 0 < counts[f] && Releasing(m, counts[f := counts[f] - 1], p, n, d + 1)
  {
    hide UsedBelow, TableBelow, SoleWriter, Flags, Aligned;
    var f := m.tables[TableKey(p, d)];
    TableCounted(m, TableKey(p, d));
    TableNotReleased(m, p, n, d);
    forall g: nat
      ensures TableBelow(m, p, g, d + 1) <==> TableBelow(m, p, g, d) || f == g
    {
      TableBelowStep(m, p, g, d);
    }
  }

  lemma TableCounted(m: Mem, t: TableKey)
    requires Inv(m) && t in m.tables
    ensures m.counts[m.tables[t]] > 0
  {
    assert t in TableUsers(m, m.tables[t]);
  }

  lemma TableNotReleased(m: Mem, p: nat, n: nat, d: nat)
    requires TablesApart(m) && TableKey(p, d) in m.tables
    ensures !UsedBelow(m, p, m.tables[TableKey(p, d)], n)
    ensures !TableBelow(m, p, m.tables[TableKey(p, d)], d)
  {}

  lemma TableBelowStep(m: Mem, p: nat, f: nat, d: nat)
    requires TableKey(p, d) in m.tables
    ensures TableBelow(m, p, f, d + 1) <==> TableBelow(m, p, f, d) || m.tables[TableKey(p, d)] == f
  {
    if TableBelow(m, p, f, d + 1) {
      var t :| t in m.tables && t.pid == p && t.didx < d + 1 && m.tables[t] == f;
      assert t.didx < d || t == TableKey(p, d);
    }
    if TableBelow(m, p, f, d) {
      var t :| t in m.tables && t.pid == p && t.didx < d && m.tables[t] == f;
      assert t.didx < d + 1;
    }
  }

  /** A slot the process does not use. */
  lemma ReleasingNoTable(m: Mem, counts: seq<nat>, p: nat, d: nat)
    requires Shaped(m) && TableKey(p, d) !in m.tables && Releasing(m, counts, p, d * TABLE_ENTRIES, d)
    ensures Releasing(m, counts, p, (d + 1) * TABLE_ENTRIES, d + 1)
  {
    hide UsedBelow;
    forall k | k in m.entries && k.pid == p
      ensures k.vpn / TABLE_ENTRIES != d
    {
      assert TableOf(k) in m.tables;
    }
    ReleasingNoPage(m, counts, p, d * TABLE_ENTRIES, (d + 1) * TABLE_ENTRIES, d);
    forall f: nat
      ensures TableBelow(m, p, f, d + 1) == TableBelow(m, p, f, d)
    {
      if TableBelow(m, p, f, d + 1) {
        var t :| t in m.tables && t.pid == p && t.didx < d + 1 && m.tables[t] == f;
        assert t.didx == d ==> t == TableKey(p, d);
      }
    }
  }

  lemma ReleasingDone(m: Mem, counts: seq<nat>, p: nat, d: nat)
    requires Inv(m) && Releasing(m, counts, p, d * TABLE_ENTRIES, d)
    requires forall t | t in m.tables :: t.didx < d
    ensures counts == Exited(m, p).counts
  {
    hide TablesApart, Aligned, SoleWriter, Flags, Counted, UsedBelow, UsedBy, TableBelow, TableBy;
    forall k | k in m.entries
      ensures k.vpn < d * TABLE_ENTRIES
    {
      assert TableOf(k) in m.tables;
    }
    forall f: nat | f < |m.counts|
      ensures counts[f] == ExitedCount(m, p, f)
    {
      AllBelow(m, p, f, d * TABLE_ENTRIES);
      AllTablesBelow(m, p, f, d);
      NotBoth(m, p, f);
    }
  }

  lemma AllTablesBelow(m: Mem, p: nat, f: nat, d: nat)
    requires forall t | t in m.tables :: t.didx < d
    ensures TableBelow(m, p, f, d) == TableBy(m, p, f)
  {}

  lemma NotBoth(m: Mem, p: nat, f: nat)
    requires TablesApart(m)
    ensures !(UsedBy(m, p, f) && TableBy(m, p, f))
  {}
}
