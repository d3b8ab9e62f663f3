/** What a process reads at a page: over every run of paging, the byte stored last by whoever shares the page, or copied by fork. */
module PageHistory {
  import opened Bytes
  import opened CopyOnWrite
  import opened Limits
  import opened Paging

  /** Whether page k is there after n operations, by the operations alone. */
  ghost predicate Present(ops: seq<Op>, n: nat, k: Key)
    requires n <= |ops|
  {
    n > 0 &&
    match ops[n - 1]
    case Map(j, _, _, _) => k == j || Present(ops, n - 1, k)
    case Unmap(j) => k != j && Present(ops, n - 1, k)
    case Fork(p, c) => Present(ops, n - 1, if k.pid == c then Key(p, k.vpn) else k)
    case Exit(p) => k.pid != p && Present(ops, n - 1, k)
    case _ => Present(ops, n - 1, k)
  }

  /** The operation that made page k shared, or -1 for a private page; fork hands it on. */
  ghost function SharedSince(ops: seq<Op>, n: nat, k: Key): int
    requires n <= |ops|
  {
    if n == 0 then -1
    else
      match ops[n - 1]
      case Map(j, _, shared, _) => if k == j then (if shared then n - 1 else -1) else SharedSince(ops, n - 1, k)
      case Remap(j, _, shared, _) =>
        if k == j && shared && SharedSince(ops, n - 1, k) == -1 then n - 1 else SharedSince(ops, n - 1, k)
      case Fork(p, c) => SharedSince(ops, n - 1, if k.pid == c then Key(p, k.vpn) else k)
      case _ => SharedSince(ops, n - 1, k)
  }

  /** The last request to map page k, or the page it is a copy of, asked for it to be read only. */
  ghost predicate Protected(ops: seq<Op>, n: nat, k: Key)
    requires n <= |ops|
  {
    n > 0 &&
    match ops[n - 1]
    case Map(j, readonly, _, _) => if k == j then readonly else Protected(ops, n - 1, k)
    case Remap(j, write, _, _) => if k == j then !write else Protected(ops, n - 1, k)
    case Fork(p, c) => Protected(ops, n - 1, if k.pid == c then Key(p, k.vpn) else k)
    case _ => Protected(ops, n - 1, k)
  }

  /** A store to page j is one to page k. */
  ghost predicate SamePage(ops: seq<Op>, n: nat, j: Key, k: Key)
    requires n <= |ops|
  {
    j == k || SharedSince(ops, n, j) == SharedSince(ops, n, k) >= 0
  }

  /** The byte that physical memory has at offset off of page k; 0 if the page is not there. */
  ghost function ByteAt(m: Mem, k: Key, off: nat): Byte {
    if k in m.entries && m.entries[k].frame < |m.phys| && off < PAGE_SIZE then m.phys[m.entries[k].frame][off] else 0 as Byte
  }

  /** The byte stored there last, by the operations; what the frame held when the page was mapped if there was no store. */
  ghost function LastByte(ms: seq<Mem>, ops: seq<Op>, n: nat, k: Key, off: nat): Byte
    requires n <= |ops| < |ms|
  {
    if n == 0 then 0 as Byte
    else
      match ops[n - 1]
      case Store(j, o, b) => if o == off && SamePage(ops, n - 1, j, k) then b else LastByte(ms, ops, n - 1, k, off)
      case Map(j, _, _, _) => if k == j then ByteAt(ms[n], k, off) else LastByte(ms, ops, n - 1, k, off)
      case Fork(p, c) => LastByte(ms, ops, n - 1, if k.pid == c then Key(p, k.vpn) else k, off)
      case _ => LastByte(ms, ops, n - 1, k, off)
  }

  // ---------- the reference does the same ----------

  /** The pages of e are there, and grouped, as the operations say. */
  ghost predicate Grouped(e: Eager, ops: seq<Op>, n: nat)
    requires n <= |ops|
  {
    && (forall k :: k in e <==> Present(ops, n, k))
    && (forall k | k in e :: e[k].group.Alone? <==> SharedSince(ops, n, k) < 0)
    && (forall j, k | j in e && k in e && e[j].group.Group? && e[k].group.Group? ::
          e[j].group == e[k].group <==> SharedSince(ops, n, j) == SharedSince(ops, n, k))
  }

  lemma {:induction false} SharedBefore(ops: seq<Op>, n: nat, k: Key)
    requires n <= |ops|
    ensures -1 <= SharedSince(ops, n, k) < n
  {
    if n > 0 {
      SharedBefore(ops, n - 1, k);
      if ops[n - 1].Fork? {
        SharedBefore(ops, n - 1, Key(ops[n - 1].p, k.vpn));
      }
    }
  }

  /** Pages of one group have one content. */
  ghost predicate SameData(e: Eager) {
    forall j, k | j in e && k in e && e[j].group.Group? && e[j].group == e[k].group :: e[j].data == e[k].data
  }

  lemma NextGrouped(e: Eager, ops: seq<Op>, n: nat, e': Eager)
    requires n < |ops| && Grouped(e, ops, n) && SameData(e) && EagerStep(e, ops[n], e')
    ensures Grouped(e', ops, n + 1) && SameData(e')
  {
    forall k
      ensures -1 <= SharedSince(ops, n, k) < n
    {
      SharedBefore(ops, n, k);
    }
    match ops[n] {
      case Map(k, _, shared, _) => MapGrouped(e, ops, n, e', k, shared);
      case Remap(k, _, shared, _) => RemapGrouped(e, ops, n, e', k, shared);
      case Fork(p, c) => ForkGrouped(e, ops, n, e', p, c);
      case Store(k, off, b) => StoreGrouped(e, ops, n, e', k, off, b);
      case _ =>
    }
  }

  lemma MapGrouped(e: Eager, ops: seq<Op>, n: nat, e': Eager, k: Key, shared: bool)
    requires n < |ops| && Grouped(e, ops, n) && SameData(e) && EagerStep(e, ops[n], e')
    requires ops[n].Map? && ops[n].k == k && ops[n].shared == shared && forall j :: SharedSince(ops, n, j) < n
    ensures Grouped(e', ops, n + 1) && SameData(e')
  {
    hide EagerStored, EagerForked, EagerExited;
    assert forall j | j in e :: e'[j] == e[j] && (e'[k].group.Alone? || e[j].group != e'[k].group);
  }

  lemma RemapGrouped(e: Eager, ops: seq<Op>, n: nat, e': Eager, k: Key, shared: bool)
    requires n < |ops| && Grouped(e, ops, n) && SameData(e) && EagerStep(e, ops[n], e')
    requires ops[n].Remap? && ops[n].k == k && ops[n].shared == shared && forall j :: -1 <= SharedSince(ops, n, j) < n
    ensures Grouped(e', ops, n + 1) && SameData(e')
  {
    hide EagerStored, EagerForked, EagerExited;
    assert forall j | j in e && j != k :: e'[j] == e[j];
    assert e'[k].data == e[k].data;
    if shared && e[k].group.Alone? {
      assert SharedSince(ops, n, k) == -1;
    } else {
      assert e'[k].group == e[k].group;
    }
  }

  lemma StoreGrouped(e: Eager, ops: seq<Op>, n: nat, e': Eager, k: Key, off: nat, b: Byte)
    requires n < |ops| && Grouped(e, ops, n) && SameData(e) && EagerStep(e, ops[n], e') && ops[n] == Store(k, off, b)
    ensures Grouped(e', ops, n + 1) && SameData(e')
  {
    assert e'.Keys == e.Keys && forall j | j in e :: e'[j].group == e[j].group;
  }

  lemma ForkGrouped(e: Eager, ops: seq<Op>, n: nat, e': Eager, p: nat, c: nat)
    requires n < |ops| && Grouped(e, ops, n) && SameData(e) && ops[n] == Fork(p, c) && e' == EagerForked(e, p, c)
    ensures Grouped(e', ops, n + 1) && SameData(e')
  {
    forall k
      ensures k in e' <==> Origin(p, c, k) in e
      ensures k in e' ==> e'[k] == e[Origin(p, c, k)]
    {
      CopiedFrom(e, p, c, k);
    }
  }

  lemma CopiedFrom(e: Eager, p: nat, c: nat, k: Key)
    ensures k in EagerForked(e, p, c) <==> Origin(p, c, k) in e
    ensures k in EagerForked(e, p, c) ==> EagerForked(e, p, c)[k] == e[Origin(p, c, k)]
  {
    if k.pid == c && Key(p, k.vpn) in e {
      assert k == Key(c, Key(p, k.vpn).vpn);
    }
  }

  // ---------- bytes ----------

  lemma StoreByte(e: Eager, ops: seq<Op>, n: nat, j: Key, o: nat, b: Byte, k: Key, off: nat)
    requires n <= |ops| && Grouped(e, ops, n) && SameData(e) && j in e && k in e && o < PAGE_SIZE && off < PAGE_SIZE
    ensures k in EagerStored(e, j, o, b)
    ensures EagerStored(e, j, o, b)[k].data[off] == if o == off && SamePage(ops, n, j, k) then b else e[k].data[off]
  {
    hide Present, SharedSince;
    var shared := j == k || (e[j].group.Group? && e[k].group == e[j].group);
    assert shared <==> SamePage(ops, n, j, k);
    assert shared ==> e[k].data == e[j].data;
    assert EagerStored(e, j, o, b)[k].data == if shared then e[j].data[o := b] else e[k].data;
  }

  /** What an operation does to one byte of page k. */
  lemma NextByte(e: Eager, ops: seq<Op>, n: nat, e': Eager, k: Key, off: nat)
    requires n < |ops| && Grouped(e, ops, n) && SameData(e) && EagerStep(e, ops[n], e') && k in e' && off < PAGE_SIZE
    requires !(ops[n].Map? && ops[n].k == k)
    ensures var from := if ops[n].Fork? && k.pid == ops[n].c then Key(ops[n].p, k.vpn) else k;
            from in e && e'[k].data[off] ==
              if ops[n].Store? && ops[n].off == off && SamePage(ops, n, ops[n].k, k) then ops[n].b else e[from].data[off]
  {
    hide Grouped, SameData, SharedSince, EagerForked, EagerStored, SamePage;
    match ops[n] {
      case Fork(p, c) => CopiedFrom(e, p, c, k);
      case Store(j, o, b) =>
        StoredKeys(e, j, o, b);
        StoreByte(e, ops, n, j, o, b, k, off);
      case _ =>
    }
  }

  lemma NextProtected(e: Eager, ops: seq<Op>, n: nat, e': Eager, k: Key)
    requires n < |ops| && EagerStep(e, ops[n], e') && k in e' && forall j | j in e :: e[j].readonly <==> Protected(ops, n, j)
    ensures e'[k].readonly <==> Protected(ops, n + 1, k)
  {
    if ops[n].Fork? {
      CopiedFrom(e, ops[n].p, ops[n].c, k);
    }
  }

  lemma StoredKeys(e: Eager, j: Key, o: nat, b: Byte)
    requires j in e && o < PAGE_SIZE
    ensures EagerStored(e, j, o, b).Keys == e.Keys
  {}

  /** Every state of the run, seen as the reference, is grouped as the operations say. */
  lemma {:induction false} RunGrouped(ms: seq<Mem>, ops: seq<Op>, n: nat)
    requires Run(ms, ops) && n < |ms|
    ensures Inv(ms[n]) && Grouped(Abs(ms[n]), ops, n) && SameData(Abs(ms[n]))
  {
    hide Inv, Step, EagerStep, Abs;
    RunRefines(ms, ops);
    if n > 0 {
      RunGrouped(ms, ops, n - 1);
      NextGrouped(Abs(ms[n - 1]), ops, n - 1, Abs(ms[n]));
    }
  }

  /** Over every run a page refuses stores exactly if the last request for it said so, and is shared exactly if one did. */
  lemma {:induction false} RunFlags(ms: seq<Mem>, ops: seq<Op>, n: nat)
    requires Run(ms, ops) && n < |ms|
    ensures forall k | k in ms[n].entries :: ms[n].entries[k].readonly <==> Protected(ops, n, k)
    ensures forall k | k in ms[n].entries :: ms[n].entries[k].shared <==> SharedSince(ops, n, k) >= 0
  {
    hide Inv, Step, EagerStep, Abs, SameData, SharedSince, Protected;
    RunRefines(ms, ops);
    RunGrouped(ms, ops, n);
    AbsFlags(ms[n]);
    if n > 0 {
      RunFlags(ms, ops, n - 1);
      AbsFlags(ms[n - 1]);
      forall k | k in ms[n].entries
        ensures ms[n].entries[k].readonly <==> Protected(ops, n, k)
      {
        NextProtected(Abs(ms[n - 1]), ops, n - 1, Abs(ms[n]), k);
      }
    }
  }

  lemma AbsFlags(m: Mem)
    requires Inv(m)
    ensures Abs(m).Keys == m.entries.Keys
    ensures forall k | k in m.entries :: Abs(m)[k].readonly <==> m.entries[k].readonly
    ensures forall k | k in m.entries :: Abs(m)[k].group.Alone? <==> !m.entries[k].shared
  {}

  lemma AbsByte(m: Mem, k: Key, off: nat)
    requires Inv(m) && off < PAGE_SIZE
    ensures k in Abs(m) <==> k in m.entries
    ensures k in Abs(m) ==> Abs(m)[k].data[off] == ByteAt(m, k, off)
  {}

  /**
   * Over every run: page k is there exactly if it was mapped, or copied by a fork, and neither unmapped since nor gone with its
   * process; and each of its bytes in memory is the one stored last, by the process itself before or after it was forked, by a
   * process it was forked from before that, or by any process that shares the page with it.
   */
  lemma {:induction false} RunBytes(ms: seq<Mem>, ops: seq<Op>, n: nat, k: Key, off: nat)
    requires Run(ms, ops) && n < |ms| && off < PAGE_SIZE
    ensures k in ms[n].entries <==> Present(ops, n, k)
    ensures k in ms[n].entries ==> ByteAt(ms[n], k, off) == LastByte(ms, ops, n, k, off)
  {
    hide Inv, Step, EagerStep, Abs, ByteAt, SamePage;
    RunGrouped(ms, ops, n);
    AbsByte(ms[n], k, off);
    if k in ms[n].entries && n > 0 && !(ops[n - 1].Map? && ops[n - 1].k == k) {
      RunGrouped(ms, ops, n - 1);
      RunRefines(ms, ops);
      NextByte(Abs(ms[n - 1]), ops, n - 1, Abs(ms[n]), k, off);
      var from := if ops[n - 1].Fork? && k.pid == ops[n - 1].c then Key(ops[n - 1].p, k.vpn) else k;
      AbsByte(ms[n - 1], from, off);
      RunBytes(ms, ops, n - 1, from, off);
    }
  }
}
