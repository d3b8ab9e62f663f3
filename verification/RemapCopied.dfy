/** A run at whose end a mapping request breaks copy-on-write: the page is writable again in one of two processes that share its frame. */
module RemapCopied {
  import opened Bytes
  import opened CopyOnWrite
  import opened Paging

  /** The first page of the mapping area. */
  const PAGE := 0x8000

  /** Process 1 maps a private page and forks process 2. */
  function Ops(): seq<Op> {
    [Spawn(1), NeedTable(TableKey(1, PAGE / TABLE_ENTRIES)), Map(Key(1, PAGE), false, false, true), Fork(1, 2)]
  }

  lemma BeforeFork(m: Mem) returns (ms: seq<Mem>)
    requires Boot(m) && |m.counts| >= KERNEL_FRAMES + 3
    ensures |ms| == 4 && ms[0] == m && forall i | 0 <= i < 3 :: Step(ms[i], Ops()[i], ms[i + 1])
    ensures ms[3].entries == map[Key(1, PAGE) := Entry(true, false, true, false, KERNEL_FRAMES + 1)]
    ensures ms[3].tables == map[TableKey(1, PAGE / TABLE_ENTRIES) := KERNEL_FRAMES] && ms[3].spaces == {1}
    ensures |ms[3].counts| == |m.counts| && FreeFrame(ms[3], KERNEL_FRAMES + 2)
  {
    var t, k := TableKey(1, PAGE / TABLE_ENTRIES), Key(1, PAGE);
    var m1 := Spawned(m, 1);
    assert FreeFrame(m1, KERNEL_FRAMES);
    var m2 := TableAdded(m1, t, KERNEL_FRAMES);
    assert FreeFrame(m2, KERNEL_FRAMES + 1);
    var m3 := Mapped(m2, k, false, false, true, KERNEL_FRAMES + 1);
    ms := [m, m1, m2, m3];
  }

  lemma AfterFork(m: Mem, tf: map<nat, nat>)
    requires m.entries == map[Key(1, PAGE) := Entry(true, false, true, false, KERNEL_FRAMES + 1)]
    ensures var e := Entry(false, false, true, false, KERNEL_FRAMES + 1);
            Forked(m, 1, 2, tf).entries == map[Key(1, PAGE) := e, Key(2, PAGE) := e]
  {
    assert Key(2, Key(1, PAGE).vpn) == Key(2, PAGE);
    assert Origin(1, 2, Key(2, PAGE)) == Key(1, PAGE) == Origin(1, 2, Key(1, PAGE));
  }

  lemma BothShareFrame(m: Mem) returns (ms: seq<Mem>)
    requires Boot(m) && |m.counts| >= KERNEL_FRAMES + 3
    ensures Run(ms, Ops()) && ms[0] == m
    ensures var e := Entry(false, false, true, false, KERNEL_FRAMES + 1);
            ms[4].entries == map[Key(1, PAGE) := e, Key(2, PAGE) := e]
  {
    hide Inv, Forked;
    ms := BeforeFork(m);
    var tf := map[PAGE / TABLE_ENTRIES := KERNEL_FRAMES + 2];
    assert TablesOf(ms[3], 1) == {PAGE / TABLE_ENTRIES} by {
      assert TableKey(1, PAGE / TABLE_ENTRIES) in ms[3].tables;
    }
    assert Fresh(ms[3], 1, tf);
    AfterFork(ms[3], tf);
    ms := ms + [Forked(ms[3], 1, 2, tf)];
    assert Step(ms[3], Ops()[3], ms[4]);
  }

  /**
   * From any boot state with three free frames: after the run, process 1 asks for the page again, for writing. The request
   * breaks the invariant, and its next store is read by process 2.
   */
  lemma CopyLost(m: Mem, b: Byte) returns (ms: seq<Mem>)
    requires Boot(m) && |m.counts| >= KERNEL_FRAMES + 3
    ensures Run(ms, Ops()) && Inv(ms[4]) && Key(1, PAGE) in ms[4].entries
    ensures var again := Remapped(ms[4], Key(1, PAGE), true, false, true);
            && !Inv(again)
            && StoreStep(again, Key(1, PAGE), 0, b, Stored(again, Key(1, PAGE), 0, b))
            && Key(2, PAGE) in Abs(Stored(again, Key(1, PAGE), 0, b))
            && Abs(Stored(again, Key(1, PAGE), 0, b))[Key(2, PAGE)].data[0] == b
  {
    ms := BothShareFrame(m);
    RunRefines(ms, Ops());
    var k := Key(1, PAGE);
    UsedFrameCounted(ms[4], k);
    assert Key(2, PAGE) in Users(ms[4], KERNEL_FRAMES + 1);
    RemapKeepsInv(ms[4], k, true, false, true);
  }
}
