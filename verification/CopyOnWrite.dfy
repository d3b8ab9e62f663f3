/** Over every run, copy-on-write paging is a system whose fork copies every page. */
module CopyOnWrite {
  import opened Bytes
  import opened Limits
  import opened Paging

  datatype Op =
    | Spawn(p: nat)
    | NeedTable(t: TableKey)
    | Map(k: Key, readonly: bool, shared: bool, privat: bool)
    | Remap(k: Key, write: bool, shared: bool, privat: bool)
    | Unmap(k: Key)
    | Fork(p: nat, c: nat)
    | Store(k: Key, off: nat, b: Byte)
    | Exit(p: nat)

  // ---------- a mapping request for a page that is already there ----------

  /** mmap on a present page: link_page returns early and only the flags are rewritten. */
  function Remapped(m: Mem, k: Key, protWrite: bool, shared: bool, privat: bool): Mem
    requires k in m.entries
  {
    var e := m.entries[k];
    m.(entries := m.entries[k := Entry(protWrite, e.shared || shared, e.privat || privat, !protWrite, e.frame)])
  }

  /**
   * Such a request is harmless exactly when the page is alone on its frame, or already shared, or asks for
   * neither sharing nor writing. Otherwise it opens a copy-on-write page to stores, or shares it with
   * processes that never asked.
   */
  lemma RemapKeepsInv(m: Mem, k: Key, protWrite: bool, shared: bool, privat: bool)
    requires Inv(m) && k in m.entries
    ensures Inv(Remapped(m, k, protWrite, shared, privat)) <==>
            m.counts[m.entries[k].frame] == 1 || m.entries[k].shared || (!shared && !protWrite)
  {
    hide TablesApart, Aligned, SoleWriter, Flags, Counted;
    var f := m.entries[k].frame;
    UsedFrameCounted(m, k);
    if m.counts[f] == 1 || m.entries[k].shared || (!shared && !protWrite) {
      if m.counts[f] == 1 {
        forall j | j in m.entries && m.entries[j].frame == f
          ensures j == k
        {
          assert j in Users(m, f);
        }
      }
      RemapShaped(m, k, protWrite, shared, privat);
      RemapAligned(m, k, protWrite, shared, privat);
      RemapWriters(m, k, protWrite, shared, privat);
      SameFramesCounted(m, Remapped(m, k, protWrite, shared, privat));
    } else {
      var j :| j in Users(m, f) && j != k;
      RemapBreaks(m, k, j, protWrite, shared, privat);
    }
  }

  ghost predicate Harmless(m: Mem, k: Key, protWrite: bool, shared: bool)
    requires k in m.entries
  {
    || (forall j | j in m.entries && m.entries[j].frame == m.entries[k].frame :: j == k)
    || m.entries[k].shared
    || (!shared && !protWrite)
  }

  lemma RemapAligned(m: Mem, k: Key, protWrite: bool, shared: bool, privat: bool)
    requires Aligned(m) && k in m.entries && Harmless(m, k, protWrite, shared)
    ensures Aligned(Remapped(m, k, protWrite, shared, privat))
  {}

  lemma RemapShaped(m: Mem, k: Key, protWrite: bool, shared: bool, privat: bool)
    requires Shaped(m) && TablesApart(m) && k in m.entries
    ensures Shaped(Remapped(m, k, protWrite, shared, privat)) && TablesApart(Remapped(m, k, protWrite, shared, privat))
  {}

  lemma RemapWriters(m: Mem, k: Key, protWrite: bool, shared: bool, privat: bool)
    requires Aligned(m) && SoleWriter(m) && Flags(m) && k in m.entries && Harmless(m, k, protWrite, shared)
    ensures SoleWriter(Remapped(m, k, protWrite, shared, privat)) && Flags(Remapped(m, k, protWrite, shared, privat))
  {}

  lemma RemapBreaks(m: Mem, k: Key, j: Key, protWrite: bool, shared: bool, privat: bool)
    requires Wired(m) && k in m.entries && j in m.entries && j != k && m.entries[j].frame == m.entries[k].frame
    requires !m.entries[k].shared && (shared || protWrite)
    ensures !Wired(Remapped(m, k, protWrite, shared, privat))
  {
    var m' := Remapped(m, k, protWrite, shared, privat);
    assert m'.entries[j] == m.entries[j] && m.entries[j].shared == m.entries[k].shared;
    if shared {
      assert m'.entries[k].shared != m'.entries[j].shared;
    } else {
      assert m'.entries[k].write && !m'.entries[k].shared && m'.entries[j].frame == m'.entries[k].frame;
    }
  }

  // ---------- one step of the kernel ----------

  /** What the fault handler does to make a page writable. */
  ghost predicate FaultStep(m: Mem, k: Key, m': Mem) {
    && k in m.entries && m.entries[k].frame < |m.counts| == |m.phys|
    && (if m.counts[m.entries[k].frame] == 1 then m' == MadeWritable(m, k)
        else m.counts[m.entries[k].frame] > 1 &&
             exists f :: FreeFrame(m, f) && f != m.entries[k].frame && m' == Split(m, k, f))
  }

  /** A user-mode store that does not hit a failed assertion, with the fault it may take. */
  ghost predicate StoreStep(m: Mem, k: Key, off: nat, b: Byte, m': Mem) {
    && k in m.entries && off < PAGE_SIZE && !m.entries[k].readonly
    && m.entries[k].frame < |m.counts| == |m.phys|
    && (if m.entries[k].write then m' == Stored(m, k, off, b)
        else exists m1 :: FaultStep(m, k, m1) && k in m1.entries && m1.entries[k].frame < |m1.phys|
                          && m' == Stored(m1, k, off, b))
  }

  ghost predicate Step(m: Mem, op: Op, m': Mem) {
    match op
    case Spawn(p) =>
      p !in m.spaces && |m.spaces| < NR_TASKS && m' == Spawned(m, p)
    case NeedTable(t) =>
      t.pid in m.spaces && t !in m.tables && exists f :: FreeFrame(m, f) && m' == TableAdded(m, t, f)
    case Map(k, readonly, shared, privat) =>
      && k.pid in m.spaces && k !in m.entries && TableOf(k) in m.tables
      && exists f :: FreeFrame(m, f) && m' == Mapped(m, k, readonly, shared, privat, f)
    case Remap(k, write, shared, privat) =>
      && k in m.entries && m.entries[k].frame < |m.counts|
      && (m.counts[m.entries[k].frame] == 1 || m.entries[k].shared || (!shared && !write))
      && m' == Remapped(m, k, write, shared, privat)
    case Unmap(k) =>
      k in m.entries && m.entries[k].frame < |m.counts| && m.counts[m.entries[k].frame] > 0 && m' == Unmapped(m, k)
    case Fork(p, c) =>
      && p in m.spaces && c !in m.spaces && |m.spaces| < NR_TASKS
      && exists tf :: Fresh(m, p, tf) && m' == Forked(m, p, c, tf)
    case Store(k, off, b) =>
      StoreStep(m, k, off, b, m')
    case Exit(p) =>
      p in m.spaces && m' == Exited(m, p)
  }

  // ---------- one step of the reference ----------

  ghost predicate EagerStep(e: Eager, op: Op, e': Eager) {
    match op
    case Spawn(_) => e' == e
    case NeedTable(_) => e' == e
    case Map(k, readonly, shared, _) =>
      k !in e && exists data, g :: NewGroup(e, shared, g) && e' == e[k := Cell(readonly, g, data)]
    case Remap(k, write, shared, _) =>
      && k in e
      && exists g :: GroupAfter(e, k, shared, g) && e' == e[k := Cell(!write, g, e[k].data)]
    case Unmap(k) => k in e && e' == e - {k}
    case Fork(p, c) => e' == EagerForked(e, p, c)
    case Store(k, off, b) => k in e && !e[k].readonly && off < PAGE_SIZE && e' == EagerStored(e, k, off, b)
    case Exit(p) => e' == EagerExited(e, p)
  }

  /** A page mapped shared starts a group of its own; a private page has none. */
  ghost predicate NewGroup(e: Eager, shared: bool, g: Group) {
    if shared then g.Group? && forall j | j in e :: e[j].group != g else g.Alone?
  }

  /** A page mapped again keeps its group, unless it was private and is now to be shared. */
  ghost predicate GroupAfter(e: Eager, k: Key, shared: bool, g: Group)
    requires k in e
  {
    if shared && e[k].group.Alone? then NewGroup(e, true, g) else g == e[k].group
  }

  // ---------- the steps correspond ----------

  lemma FaultRefines(m: Mem, k: Key, m': Mem)
    requires Inv(m) && FaultStep(m, k, m') && !m.entries[k].write && !m.entries[k].readonly
    ensures Inv(m') && Abs(m') == Abs(m) && k in m'.entries && m'.entries[k].write
  {
    hide Counted, TablesApart, Flags;
    if m.counts[m.entries[k].frame] == 1 {
      MadeWritableKeepsInv(m, k);
      MadeWritableAbs(m, k);
    } else {
      var f :| FreeFrame(m, f) && f != m.entries[k].frame && m' == Split(m, k, f);
      SplitKeepsInv(m, k, f);
      FreeFrameUnused(m, f);
      FaultsArePrivate(m, k);
      SplitAbs(m, k, f);
    }
  }

  /** A fault takes a frame only if somebody else has the page too: then the process gets one that was free, and the others keep theirs. */
  lemma FaultFrugal(m: Mem, k: Key, m': Mem)
    requires Inv(m) && FaultStep(m, k, m')
    ensures k in m'.entries && m'.entries[k].frame < |m'.counts| == |m.counts|
    ensures if forall j | j in m.entries && j != k :: m.entries[j].frame != m.entries[k].frame
            then m'.counts == m.counts && m'.entries[k].frame == m.entries[k].frame
            else m.counts[m'.entries[k].frame] == 0 && m'.counts[m'.entries[k].frame] == 1
                 && m'.counts[m.entries[k].frame] == m.counts[m.entries[k].frame] - 1
    ensures forall j | j in m.entries && j != k :: j in m'.entries && m'.entries[j] == m.entries[j]
  {
    hide TablesApart, Aligned, SoleWriter, Flags, Counted;
    UsedFrameCounted(m, k);
    var f := m.entries[k].frame;
    assert k in Users(m, f);
    if j :| j in m.entries && j != k && m.entries[j].frame == f {
      assert j in Users(m, f);
    }
    if Users(m, f) != {k} {
      var j :| j in Users(m, f) && j != k;
    }
  }

  lemma StoreRefines(m: Mem, k: Key, off: nat, b: Byte, m': Mem)
    requires Inv(m) && StoreStep(m, k, off, b, m')
    ensures Inv(m') && Abs(m') == EagerStored(Abs(m), k, off, b)
  {
    hide Counted, TablesApart, Flags;
    var m1 := m;
    if !m.entries[k].write {
      m1 :| FaultStep(m, k, m1) && k in m1.entries && m1.entries[k].frame < |m1.phys| && m' == Stored(m1, k, off, b);
      FaultRefines(m, k, m1);
    }
    StoredKeepsInv(m1, k, off, b);
    StoredAbs(m1, k, off, b);
  }

  lemma FaultsArePrivate(m: Mem, k: Key)
    requires Flags(m) && k in m.entries && !m.entries[k].write && !m.entries[k].readonly
    ensures !m.entries[k].shared
  {}

  lemma MapRefines(m: Mem, k: Key, readonly: bool, shared: bool, privat: bool, f: nat)
    requires Inv(m) && FreeFrame(m, f) && k.pid in m.spaces && k !in m.entries && TableOf(k) in m.tables
    ensures Inv(Mapped(m, k, readonly, shared, privat, f))
    ensures EagerStep(Abs(m), Map(k, readonly, shared, privat), Abs(Mapped(m, k, readonly, shared, privat, f)))
  {
    hide Counted, TablesApart, Flags, Aligned, SoleWriter;
    var m' := Mapped(m, k, readonly, shared, privat, f);
    MappedKeepsInv(m, k, readonly, shared, privat, f);
    FreeFrameUnused(m, f);
    var g := if shared then Group(f) else Alone;
    assert NewGroup(Abs(m), shared, g);
    assert Abs(m') == Abs(m)[k := Cell(readonly, g, m.phys[f])];
  }

  /** The group of the page once it is mapped again. */
  function RemapGroup(m: Mem, k: Key, shared: bool): Group
    requires k in m.entries
  {
    if m.entries[k].shared || shared then Group(m.entries[k].frame) else Alone
  }

  lemma RemapAbs(m: Mem, k: Key, write: bool, shared: bool, privat: bool)
    requires Shaped(m) && k in m.entries
    ensures k in Abs(m) && (Abs(m)[k].group.Alone? <==> !m.entries[k].shared)
    ensures m.entries[k].shared ==> Abs(m)[k].group == Group(m.entries[k].frame)
    ensures Abs(Remapped(m, k, write, shared, privat)) == Abs(m)[k := Cell(!write, RemapGroup(m, k, shared), Abs(m)[k].data)]
  {}

  lemma OwnFrameNewGroup(m: Mem, k: Key)
    requires Inv(m) && k in m.entries && m.counts[m.entries[k].frame] == 1 && !m.entries[k].shared
    ensures NewGroup(Abs(m), true, Group(m.entries[k].frame))
  {
    hide TablesApart, SoleWriter, Flags, Aligned, Counted;
    UsedFrameCounted(m, k);
    var f := m.entries[k].frame;
    forall j | j in Abs(m)
      ensures Abs(m)[j].group != Group(f)
    {
      assert m.entries[j].frame == f ==> j in Users(m, f);
    }
  }

  /** A page that is there keeps its contents, and a private one that is to be shared starts a group. */
  lemma RemapRefines(m: Mem, k: Key, write: bool, shared: bool, privat: bool)
    requires Inv(m) && k in m.entries
    requires m.counts[m.entries[k].frame] == 1 || m.entries[k].shared || (!shared && !write)
    ensures Inv(Remapped(m, k, write, shared, privat))
    ensures EagerStep(Abs(m), Remap(k, write, shared, privat), Abs(Remapped(m, k, write, shared, privat)))
  {
    hide TablesApart, SoleWriter, Flags, Aligned, Counted, Abs, Remapped, NewGroup;
    RemapKeepsInv(m, k, write, shared, privat);
    RemapAbs(m, k, write, shared, privat);
    if shared && !m.entries[k].shared {
      OwnFrameNewGroup(m, k);
    }
    assert GroupAfter(Abs(m), k, shared, RemapGroup(m, k, shared));
  }

  lemma ForkRefines(m: Mem, p: nat, c: nat, tf: map<nat, nat>)
    requires Inv(m) && p in m.spaces && c !in m.spaces && |m.spaces| < NR_TASKS && Fresh(m, p, tf)
    ensures Inv(Forked(m, p, c, tf)) && Abs(Forked(m, p, c, tf)) == EagerForked(Abs(m), p, c)
  {
    ForkedKeepsInv(m, p, c, tf);
    ForkedAbs(m, p, c, tf);
  }

  lemma ExitRefines(m: Mem, p: nat)
    requires Inv(m) && p in m.spaces
    ensures Inv(Exited(m, p)) && Abs(Exited(m, p)) == EagerExited(Abs(m), p)
  {
    hide Counted, TablesApart, Flags, Aligned, SoleWriter;
    ExitedKeepsInv(m, p);
  }

  lemma UnmapRefines(m: Mem, k: Key)
    requires Inv(m) && k in m.entries
    ensures m.counts[m.entries[k].frame] > 0
    ensures Inv(Unmapped(m, k)) && k in Abs(m) && Abs(Unmapped(m, k)) == Abs(m) - {k}
  {
    hide Counted, TablesApart, Flags, Aligned, SoleWriter;
    UnmappedKeepsInv(m, k);
  }

  /** Forward simulation: the invariant is kept, and the reference can do the same step. */
  lemma StepRefines(m: Mem, op: Op, m': Mem)
    requires Inv(m) && Step(m, op, m')
    ensures Inv(m') && EagerStep(Abs(m), op, Abs(m'))
  {
    hide Wired, Counted;
    match op {
      case Spawn(p) =>
        SpawnedKeepsInv(m, p);
      case NeedTable(t) =>
        var f :| FreeFrame(m, f) && m' == TableAdded(m, t, f);
        TableAddedKeepsInv(m, t, f);
      case Map(k, readonly, shared, privat) =>
        var f :| FreeFrame(m, f) && m' == Mapped(m, k, readonly, shared, privat, f);
        MapRefines(m, k, readonly, shared, privat, f);
      case Remap(k, write, shared, privat) =>
        RemapRefines(m, k, write, shared, privat);
      case Unmap(k) =>
        UnmapRefines(m, k);
      case Fork(p, c) =>
        var tf :| Fresh(m, p, tf) && m' == Forked(m, p, c, tf);
        ForkRefines(m, p, c, tf);
      case Store(k, off, b) =>
        StoreRefines(m, k, off, b, m');
      case Exit(p) =>
        ExitRefines(m, p);
    }
  }

  // ---------- runs ----------

  /** No process yet; the kernel's frames in use, all others free. */
  ghost predicate Boot(m: Mem) {
    && m.entries == map[] && m.tables == map[] && m.spaces == {} && |m.phys| == |m.counts|
    && forall f: nat | f < |m.counts| :: m.counts[f] == if f < KERNEL_FRAMES then 1 else 0
  }

  lemma BootInv(m: Mem)
    requires Boot(m)
    ensures Inv(m) && Abs(m) == map[]
  {}

  ghost predicate Run(ms: seq<Mem>, ops: seq<Op>) {
    && |ms| == |ops| + 1 && Boot(ms[0])
    && forall i | 0 <= i < |ops| :: Step(ms[i], ops[i], ms[i + 1])
  }

  /** Every state of every run satisfies the invariant and looks like the reference after the same operations. */
  lemma {:induction false} RunRefines(ms: seq<Mem>, ops: seq<Op>)
    requires Run(ms, ops)
    ensures forall i | 0 <= i < |ms| :: Inv(ms[i])
    ensures Abs(ms[0]) == map[]
    ensures forall i | 0 <= i < |ops| :: EagerStep(Abs(ms[i]), ops[i], Abs(ms[i + 1]))
  {
    hide Wired, Counted, Step, EagerStep, Abs;
    BootInv(ms[0]);
    var n := 0;
    while n < |ops|
      invariant 0 <= n <= |ops|
      invariant forall i | 0 <= i <= n :: Inv(ms[i])
      invariant forall i | 0 <= i < n :: EagerStep(Abs(ms[i]), ops[i], Abs(ms[i + 1]))
    {
      StepRefines(ms[n], ops[n], ms[n + 1]);
      n := n + 1;
    }
  }

  /** In every reachable state each count is the number of uses, at most one per task, far below the width of a byte. */
  lemma RunCounts(ms: seq<Mem>, ops: seq<Op>, i: nat, f: nat)
    requires Run(ms, ops) && i < |ms| && UserFrame(ms[i], f)
    ensures ms[i].counts[f] == |Users(ms[i], f)| + |TableUsers(ms[i], f)|
    ensures ms[i].counts[f] <= NR_TASKS
    ensures forall j, k | j in Users(ms[i], f) && k in Users(ms[i], f) :: j.vpn == k.vpn
  {
    RunRefines(ms, ops);
    CountsBounded(ms[i], f);
  }
}
