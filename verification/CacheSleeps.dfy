/** What a sleep inside the buffer cache can do: a store that never reaches the disk, and reads that need not wait. */
module CacheSleeps {
  import opened Blocks
  import opened BufferCache
  import opened CacheRuns

  /** The reads of the first n steps that no release has answered yet. */
  ghost function Outstanding(es: seq<Event>, n: nat): int
    requires n <= |es|
  {
    if n == 0 then 0
    else Outstanding(es, n - 1) + HoldsGained(es[n - 1])
  }

  function HoldsGained(e: Event): int {
    match e
    case Bread(_, _) => 1
    case Resume(_, _) => 1
    case Release(_) => -1
    case _ => 0
  }

  lemma HoldsStep(c: Cache, e: Event, c': Cache)
    requires Inv(c) && Step(c, e, c')
    ensures Holds(c'.buffers) == Holds(c.buffers) + HoldsGained(e)
  {
    hide Hashed, AllHonest, OneEach, Hash;
    match e {
      case Bread(k, r) =>
        if !Cached(c, k) && r == |c.buffers| {
          assert c'.buffers[..r] == c.buffers;
        } else {
          assert c.free != [] ==> c.free[|c.free| - 1] in c.free;
          assert c'.buffers == c.buffers[r := c'.buffers[r]];
          HoldsUpdate(c.buffers, r, c'.buffers[r]);
        }
      case Resume(k, r) =>
        assert c.free[|c.free| - 1] in c.free;
        assert c'.buffers == c.buffers[r := c'.buffers[r]];
        HoldsUpdate(c.buffers, r, c'.buffers[r]);
      case _ =>
        assert c'.buffers == c.buffers[e.i := c'.buffers[e.i]];
        HoldsUpdate(c.buffers, e.i, c'.buffers[e.i]);
    }
  }

  /** In every run the holders of all buffers together are the reads not answered by a release. */
  lemma {:induction false} HoldsAreReads(cs: seq<Cache>, es: seq<Event>, n: nat)
    requires CarefulRun(cs, es, n)
    ensures Holds(cs[n].buffers) == Outstanding(es, n)
  {
    hide Inv, Step, Careful;
    if n > 0 {
      HoldsAreReads(cs, es, n - 1);
      RunKeeps(cs, es, n - 1);
      assert Step(cs[n - 1], es[n - 1], cs[n]);
      HoldsStep(cs[n - 1], es[n - 1], cs[n]);
    }
  }

  /** No read has to wait for a buffer while fewer reads are unanswered than there are buffers: one of them is unused. */
  lemma ReadFindsBuffer(cs: seq<Cache>, es: seq<Event>, n: nat)
    requires CarefulRun(cs, es, n) && Outstanding(es, n) < |cs[n].buffers|
    ensures cs[n].free != []
  {
    hide Inv, Step, Careful;
    HoldsAreReads(cs, es, n);
    RunKeeps(cs, es, n);
    AllHeldNoneFree(cs[n]);
  }

  lemma LostSteps(c: Cache, k: Key, a: Block, b: Block) returns (c1: Cache, c2: Cache, c3: Cache, c4: Cache, c5: Cache)
    requires Empty(c)
    ensures Step(c, Bread(k, 0), c1) && Step(c1, Bread(k, 0), c2) && Step(c2, Touch(0, a), c3)
    ensures Step(c3, WriteOut(0), c4) && Step(c4, Touch(0, b), c5)
    ensures |c1.buffers| == |c2.buffers| == |c3.buffers| == |c4.buffers| == |c5.buffers| == 1
    ensures c4.buffers[0].count == c5.buffers[0].count == 2
    ensures c4.buffers[0].key == c5.buffers[0].key == k && DiskAt(c5, k) == a
  {
    hide Hash;
    c1 := Filled(Added(c, k, seq(BLOCK_SIZE, _ => 0)), 0);
    assert c1.buffers[0].key == k && Cached(c1, k);
    c2 := Hit(c1, 0);
    c3 := Touched(c2, 0, a);
    c4 := WrittenOut(c3, 0);
    c5 := Touched(c4, 0, b);
  }

  /**
   * Two processes hold a block. One writes it to the device and sleeps; the other stores into it; the first wakes and counts
   * the buffer as clean. The disk has the old contents, and nothing will write the new ones.
   */
  lemma StoreLost(c: Cache, k: Key, a: Block, b: Block) returns (cs: seq<Cache>, es: seq<Event>)
    requires Empty(c) && a != b
    ensures Run(cs, es) && cs[0] == c && es == [Bread(k, 0), Bread(k, 0), Touch(0, a), WriteOut(0), Touch(0, b), Clean(0)]
    ensures Inv(cs[5]) && !Inv(cs[6]) && LastStored(cs, es, 6, k) == b
    ensures |cs[6].buffers| == 1 && DiskAt(cs[6], k) == a && Flushed(cs[6], 0) == cs[6]
  {
    hide Inv, Step;
    var c1, c2, c3, c4, c5 := LostSteps(c, k, a, b);
    var c6 := Cleaned(c5, 0);
    CleanStep(c5, 0);
    cs, es := [c, c1, c2, c3, c4, c5, c6], [Bread(k, 0), Bread(k, 0), Touch(0, a), WriteOut(0), Touch(0, b), Clean(0)];
    assert Halves(cs, es, 3, 5, 0);
    RunKeeps(cs, es, 5);
    CleanFate(cs, es, 3, 5, 0);
  }

  lemma CleanStep(c: Cache, i: nat)
    requires i < |c.buffers|
    ensures Step(c, Clean(i), Cleaned(c, i))
  {}
}
