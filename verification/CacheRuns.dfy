/** Whole runs of the buffer cache: reads see the last contents, and eviction takes the buffer released longest ago. */
module CacheRuns {
  import opened Blocks
  import opened BufferCache
  import opened Options
  import opened Queues

  /** Resume is a read that slept for want of a buffer and goes on; WriteOut and Clean are the halves of a write that slept
      in the device. */
  datatype Event =
    | Bread(k: Key, r: nat)
    | Resume(k: Key, r: nat)
    | Release(i: nat)
    | Touch(i: nat, data: Block)
    | Flush(i: nat)
    | WriteOut(i: nat)
    | Clean(i: nat)

  /** The block is cached at r: the existing buffer, a new one as long as there is memory, or the one at the far end of the free
      list. */
  ghost predicate BreadStep(c: Cache, k: Key, r: nat, c': Cache) {
    if Cached(c, k) then
      r < |c.buffers| && c.buffers[r].key == k && c' == Hit(c, r)
    else if |c.buffers| < MAX_BUFFERS then
      r == |c.buffers| && |c.buckets| == HASH_COUNT && exists data :: c' == Filled(Added(c, k, data), r)
    else
      c.free != [] && r == c.free[|c.free| - 1] && Evicts(c, k, r, c')
  }

  ghost predicate Evicts(c: Cache, k: Key, r: nat, c': Cache) {
    r < |c.buffers| && |c.buckets| == HASH_COUNT && c' == Filled(TakenOver(c, r, k), r)
  }

  /** A read that slept takes the buffer at the far end of the free list, and does not look for the block again. */
  ghost predicate ResumeStep(c: Cache, k: Key, r: nat, c': Cache) {
    |c.buffers| >= MAX_BUFFERS && c.free != [] && r == c.free[|c.free| - 1] && Evicts(c, k, r, c')
  }

  ghost predicate Step(c: Cache, e: Event, c': Cache) {
    match e
    case Resume(k, r) => ResumeStep(c, k, r, c')
    case Bread(k, r) => BreadStep(c, k, r, c')
    case Release(i) => i < |c.buffers| && c.buffers[i].count > 0 && c' == Released(c, i)
    case Touch(i, data) => i < |c.buffers| && c.buffers[i].count > 0 && c' == Touched(c, i, data)
    case Flush(i) => i < |c.buffers| && c' == Flushed(c, i)
    case WriteOut(i) => i < |c.buffers| && c.buffers[i].dirty && c' == WrittenOut(c, i)
    case Clean(i) => i < |c.buffers| && c' == Cleaned(c, i)
  }

  lemma BreadKeeps(c: Cache, k: Key, r: nat, c': Cache)
    requires Inv(c) && BreadStep(c, k, r, c')
    ensures Inv(c') && SameView(c, c')
    ensures r < |c'.buffers| && c'.buffers[r].key == k && c'.buffers[r].valid && c'.buffers[r].count > 0
    ensures c'.buffers[r].data == Logical(c, k)
  {
    hide Hashed;
    if Cached(c, k) {
      HitKeeps(c, r);
      LogicalCases(c, k);
    } else if r == |c.buffers| {
      var data :| c' == Filled(Added(c, k, data), r);
      AddedKeeps(c, k, data);
    } else {
      assert r in c.free;
      TakenOverKeeps(c, r, k);
    }
  }

  /** Going on after a sleep keeps the cache right exactly if no other buffer has come to hold the block in the meantime. */
  lemma ResumeExact(c: Cache, k: Key, r: nat, c': Cache)
    requires Inv(c) && ResumeStep(c, k, r, c')
    ensures Inv(c') <==> NoOther(c, r, k)
    ensures NoOther(c, r, k) ==> SameView(c, c') && c'.buffers[r].key == k && c'.buffers[r].valid && c'.buffers[r].data == Logical(c, k)
  {
    hide Hashed;
    assert r in c.free;
    if NoOther(c, r, k) {
      TakenOverKeeps(c, r, k);
    } else {
      var i :| 0 <= i < |c.buffers| && c.buffers[i].key == k && i != r;
      assert c'.buffers[i].key == c'.buffers[r].key;
      assert !OneEach(c');
    }
  }

  /** What a step does to the contents of the blocks. */
  ghost predicate StepView(c: Cache, e: Event, c': Cache) {
    if e.Touch? then e.i < |c.buffers| && ViewOf(c, c', c.buffers[e.i].key, e.data) else SameView(c, c')
  }

  /** Buffer i holds what the disk has. */
  ghost predicate Synced(c: Cache, i: nat) {
    i < |c.buffers| && c.buffers[i].data == DiskAt(c, c.buffers[i].key)
  }

  lemma StepKeeps(c: Cache, e: Event, c': Cache)
    requires Inv(c) && Step(c, e, c')
    requires (e.Resume? ==> NoOther(c, e.r, e.k)) && (e.Clean? ==> Synced(c, e.i))
    ensures Inv(c') && StepView(c, e, c')
  {
    hide Wired;
    match e {
      case Bread(k, r) => BreadKeeps(c, k, r, c');
      case Resume(k, r) => ResumeExact(c, k, r, c');
      case Release(i) => ReleasedKeeps(c, i);
      case Touch(i, data) => TouchedKeeps(c, i, data);
      case Flush(i) => FlushedKeeps(c, i);
      case WriteOut(i) => WrittenOutKeeps(c, i);
      case Clean(i) => CleanedIffSynced(c, i);
    }
  }

  ghost predicate Empty(c: Cache) {
    c.buffers == [] && c.free == [] && c.buckets == seq(HASH_COUNT, _ => [])
  }

  /** Steps m and n are the halves of one write of buffer i, which the writer holds in between. */
  ghost predicate Halves(cs: seq<Cache>, es: seq<Event>, m: nat, n: nat, i: nat)
    requires n < |es| < |cs|
  {
    m < n && es[m] == WriteOut(i) && es[n] == Clean(i) && forall t | m < t <= n :: i < |cs[t].buffers| && cs[t].buffers[i].count > 0
  }

  ghost predicate Run(cs: seq<Cache>, es: seq<Event>) {
    && |cs| == |es| + 1 && Empty(cs[0])
    && (forall n | 0 <= n < |es| :: Step(cs[n], es[n], cs[n + 1]))
    && (forall n: nat | n < |es| && es[n].Clean? :: exists m: nat :: Halves(cs, es, m, n, es[n].i))
  }

  /** What was stored last into buffer i between steps m and n. */
  ghost function LastTouch(es: seq<Event>, m: nat, n: nat, i: nat): Option<Block>
    requires m <= n <= |es|
  {
    if n == m then None
    else if es[n - 1].Touch? && es[n - 1].i == i then Some(es[n - 1].data)
    else LastTouch(es, m, n - 1, i)
  }

  /** No store fell between the halves of the write, or the disk has what the last one stored. */
  ghost predicate Undisturbed(cs: seq<Cache>, es: seq<Event>, m: nat, n: nat, i: nat)
    requires n < |es| < |cs| && Halves(cs, es, m, n, i)
  {
    var last := LastTouch(es, m + 1, n, i);
    last.Some? ==> last.value == DiskAt(cs[n], cs[n].buffers[i].key)
  }

  /** What nothing in the code tests: nobody else got the block, or stored into it, while the process slept. */
  ghost predicate Careful(cs: seq<Cache>, es: seq<Event>, n: nat)
    requires n < |es| < |cs|
  {
    match es[n]
    case Resume(k, r) => NoOther(cs[n], r, k)
    case Clean(i) => exists m: nat :: Halves(cs, es, m, n, i) && Undisturbed(cs, es, m, n, i)
    case _ => true
  }

  /** A run whose first n steps are careful. */
  ghost predicate CarefulRun(cs: seq<Cache>, es: seq<Event>, n: nat) {
    Run(cs, es) && n <= |es| && forall t: nat | t < n :: Careful(cs, es, t)
  }

  lemma {:induction false} RunKeeps(cs: seq<Cache>, es: seq<Event>, n: nat)
    requires CarefulRun(cs, es, n)
    ensures Inv(cs[n])
    decreases n, 0
  {
    hide Wired, Step, Careful, AllHonest;
    if n > 0 {
      RunKeeps(cs, es, n - 1);
      assert Careful(cs, es, n - 1);
      CarefulSteps(cs, es, n - 1);
      StepKeeps(cs[n - 1], es[n - 1], cs[n]);
    } else {
      EmptyInv(cs[0]);
    }
  }

  lemma CarefulSteps(cs: seq<Cache>, es: seq<Event>, n: nat)
    requires CarefulRun(cs, es, n) && n < |es| && Inv(cs[n]) && Careful(cs, es, n)
    ensures es[n].Resume? ==> NoOther(cs[n], es[n].r, es[n].k)
    ensures es[n].Clean? ==> Synced(cs[n], es[n].i)
    decreases n, 1
  {
    hide Inv, Step;
    if es[n].Clean? {
      var m: nat :| Halves(cs, es, m, n, es[n].i) && Undisturbed(cs, es, m, n, es[n].i);
      BetweenHalves(cs, es, m, n, es[n].i, n);
    }
  }

  /** Until a store, a buffer that went to the disk holds what the disk has; after one, what was stored last. */
  lemma {:induction false} BetweenHalves(cs: seq<Cache>, es: seq<Event>, m: nat, n: nat, i: nat, t: nat)
    requires n < |es| && CarefulRun(cs, es, n) && Halves(cs, es, m, n, i) && m < t <= n
    ensures var last := LastTouch(es, m + 1, t, i);
            if last.None? then Synced(cs[t], i) else i < |cs[t].buffers| && cs[t].buffers[i].data == last.value
    decreases t, 0
  {
    hide Inv, Step, Careful;
    assert Step(cs[t - 1], es[t - 1], cs[t]);
    RunKeeps(cs, es, t - 1);
    if t == m + 1 {
      SentOut(cs[m], i, cs[t]);
    } else {
      BetweenHalves(cs, es, m, n, i, t - 1);
      DataStays(cs[t - 1], es[t - 1], cs[t], i);
      if LastTouch(es, m + 1, t, i).None? {
        SyncedStays(cs[t - 1], es[t - 1], cs[t], i);
      }
    }
  }

  lemma SentOut(c: Cache, i: nat, c': Cache)
    requires Step(c, WriteOut(i), c')
    ensures Synced(c', i)
  {}

  /** Only a store into the buffer makes it differ from the disk. */
  lemma SyncedStays(c: Cache, e: Event, c': Cache, i: nat)
    requires Inv(c) && Step(c, e, c') && Synced(c, i) && !(e.Touch? && e.i == i)
    ensures Synced(c', i)
  {
    hide Hashed, FreeUnheld, Hash;
  }

  /** A buffer that somebody holds keeps its block, and its contents but for stores. */
  lemma DataStays(c: Cache, e: Event, c': Cache, i: nat)
    requires Inv(c) && Step(c, e, c') && i < |c.buffers| && c.buffers[i].count > 0
    ensures i < |c'.buffers| && c'.buffers[i].key == c.buffers[i].key
    ensures c'.buffers[i].data == if e.Touch? && e.i == i then e.data else c.buffers[i].data
  {
    hide Hashed, OneEach, AllHonest, Hash;
    if (e.Bread? || e.Resume?) && c.free != [] {
      assert c.free[|c.free| - 1] in c.free;
    }
  }

  /**
   * In every run, the second half of a write keeps the cache right if and only if the last store into the buffer since the
   * first half, if there was one, is what the disk has: always if nobody stored into it, and never for a store that did not
   * reach the disk by another write.
   */
  lemma CleanFate(cs: seq<Cache>, es: seq<Event>, m: nat, n: nat, i: nat)
    requires n < |es| && CarefulRun(cs, es, n) && Halves(cs, es, m, n, i)
    ensures Inv(cs[n + 1]) <==> Undisturbed(cs, es, m, n, i)
    ensures LastTouch(es, m + 1, n, i).None? ==> Inv(cs[n + 1])
  {
    hide Inv, Careful;
    RunKeeps(cs, es, n);
    BetweenHalves(cs, es, m, n, i, n);
    assert Step(cs[n], es[n], cs[n + 1]);
    CleanedIffSynced(cs[n], i);
  }

  /** The first step of a run that is not careful breaks the cache, and no other step does. */
  lemma StepExact(cs: seq<Cache>, es: seq<Event>, n: nat)
    requires CarefulRun(cs, es, n) && n < |es|
    ensures Inv(cs[n + 1]) <==> Careful(cs, es, n)
  {
    hide Inv;
    RunKeeps(cs, es, n);
    assert Step(cs[n], es[n], cs[n + 1]);
    match es[n] {
      case Resume(k, r) => ResumeExact(cs[n], k, r, cs[n + 1]);
      case Clean(i) =>
        var m: nat :| Halves(cs, es, m, n, i);
        CleanFate(cs, es, m, n, i);
        if Careful(cs, es, n) {
          var m': nat :| Halves(cs, es, m', n, i) && Undisturbed(cs, es, m', n, i);
          CleanFate(cs, es, m', n, i);
        }
      case _ => StepKeeps(cs[n], es[n], cs[n + 1]);
    }
  }

  lemma EmptyInv(c: Cache)
    requires Empty(c)
    ensures Inv(c)
  {
    forall h: nat | h < HASH_COUNT
      ensures BucketOk(c.buffers, c.buckets[h], h)
    {}
  }

  /** The contents last stored in block k by a holder before step n; what the disk had if there was no store. */
  ghost function LastStored(cs: seq<Cache>, es: seq<Event>, n: nat, k: Key): Block
    requires n <= |es| < |cs|
  {
    if n == 0 then DiskAt(cs[0], k)
    else if es[n - 1].Touch? && es[n - 1].i < |cs[n - 1].buffers| && cs[n - 1].buffers[es[n - 1].i].key == k then es[n - 1].data
    else LastStored(cs, es, n - 1, k)
  }

  lemma {:induction false} ViewIsLastStored(cs: seq<Cache>, es: seq<Event>, n: nat, k: Key)
    requires CarefulRun(cs, es, n)
    ensures Logical(cs[n], k) == LastStored(cs, es, n, k)
  {
    hide Inv, Step, Careful;
    if n > 0 {
      ViewIsLastStored(cs, es, n - 1, k);
      RunKeeps(cs, es, n - 1);
      CarefulSteps(cs, es, n - 1);
      StepKeeps(cs[n - 1], es[n - 1], cs[n]);
    }
  }

  /** Transparency: every read of every run returns the contents last stored in that block, evictions or not. */
  lemma ReadsSeeLastStored(cs: seq<Cache>, es: seq<Event>, n: nat)
    requires CarefulRun(cs, es, n) && n < |es| && (es[n].Bread? || (es[n].Resume? && Careful(cs, es, n)))
    ensures var r := es[n].r;
            && r < |cs[n + 1].buffers| && cs[n + 1].buffers[r].key == es[n].k && cs[n + 1].buffers[r].valid
            && cs[n + 1].buffers[r].data == LastStored(cs, es, n, es[n].k)
  {
    hide Inv, BreadStep;
    RunKeeps(cs, es, n);
    ViewIsLastStored(cs, es, n, es[n].k);
    assert Step(cs[n], es[n], cs[n + 1]);
    if es[n].Bread? {
      BreadKeeps(cs[n], es[n].k, es[n].r, cs[n + 1]);
    } else {
      ResumeExact(cs[n], es[n].k, es[n].r, cs[n + 1]);
    }
  }

  /**
   * Over every run, a release or a write of a buffer leaves the contents last stored in its block on the disk, whoever else
   * still holds it.
   */
  lemma WritesReachDisk(cs: seq<Cache>, es: seq<Event>, n: nat)
    requires CarefulRun(cs, es, n) && n < |es| && (es[n].Release? || es[n].Flush? || es[n].WriteOut?)
    ensures es[n].i < |cs[n].buffers|
    ensures var k := cs[n].buffers[es[n].i].key;
            DiskAt(cs[n + 1], k) == LastStored(cs, es, n, k)
  {
    hide Wired;
    RunKeeps(cs, es, n);
    assert Step(cs[n], es[n], cs[n + 1]);
    ViewIsLastStored(cs, es, n, cs[n].buffers[es[n].i].key);
    SentToDisk(cs[n], es[n], cs[n + 1]);
  }

  lemma SentToDisk(c: Cache, e: Event, c': Cache)
    requires Inv(c) && Step(c, e, c') && (e.Release? || e.Flush? || e.WriteOut?)
    ensures e.i < |c.buffers| && DiskAt(c', c.buffers[e.i].key) == Logical(c, c.buffers[e.i].key)
  {
    hide Hashed, FreeUnheld;
    LogicalCases(c, c.buffers[e.i].key);
  }

  // ---------- eviction order ----------

  /** The step at which buffer i was last released before step n; -1 if never. */
  ghost function LastRelease(es: seq<Event>, n: nat, i: nat): int
    requires n <= |es|
  {
    if n == 0 then -1
    else if es[n - 1] == Release(i) then n - 1
    else LastRelease(es, n - 1, i)
  }

  lemma {:induction false} LastReleaseBefore(es: seq<Event>, n: nat, i: nat)
    requires n <= |es|
    ensures -1 <= LastRelease(es, n, i) < n
  {
    if n > 0 {
      LastReleaseBefore(es, n - 1, i);
    }
  }

  /** From the front on, each unused buffer was released before the one ahead of it. */
  ghost predicate ByRelease(es: seq<Event>, n: nat, free: seq<nat>)
    requires n <= |es|
  {
    && (forall a | 0 <= a < |free| :: LastRelease(es, n, free[a]) >= 0)
    && (forall a, b | 0 <= a < b < |free| :: LastRelease(es, n, free[a]) > LastRelease(es, n, free[b]))
  }

  /** The first buffer was released after all others, which are in order themselves. */
  lemma FirstLatest(es: seq<Event>, n: nat, free: seq<nat>)
    requires n <= |es| && ByRelease(es, n, free) && free != []
    ensures LastRelease(es, n, free[0]) >= 0 && ByRelease(es, n, free[1..])
    ensures forall b: nat | b in free[1..] :: LastRelease(es, n, free[0]) > LastRelease(es, n, b)
  {
    hide LastRelease;
  }

  lemma LatestFirst(es: seq<Event>, n: nat, x: nat, rest: seq<nat>)
    requires n <= |es| && ByRelease(es, n, rest) && LastRelease(es, n, x) >= 0
    requires forall b: nat | b in rest :: LastRelease(es, n, x) > LastRelease(es, n, b)
    ensures ByRelease(es, n, [x] + rest)
  {
    hide LastRelease;
  }

  lemma {:induction false} WithoutByRelease(es: seq<Event>, n: nat, free: seq<nat>, x: nat)
    requires n <= |es| && ByRelease(es, n, free)
    ensures ByRelease(es, n, Without(free, x))
  {
    hide LastRelease, ByRelease;
    if free != [] {
      FirstLatest(es, n, free);
      if free[0] != x {
        WithoutByRelease(es, n, free[1..], x);
        LatestFirst(es, n, free[0], Without(free[1..], x));
      }
    }
  }

  /** Releasing i moves only i's stamp. */
  lemma ByReleaseNext(es: seq<Event>, n: nat, free: seq<nat>)
    requires n < |es| && ByRelease(es, n, free)
    requires es[n].Release? ==> es[n].i !in free
    ensures ByRelease(es, n + 1, free)
  {}

  lemma FreeAtStart(cs: seq<Cache>, es: seq<Event>)
    requires Run(cs, es)
    ensures ByRelease(es, 0, cs[0].free)
  {}

  lemma {:induction false} FreeByRelease(cs: seq<Cache>, es: seq<Event>, n: nat)
    requires CarefulRun(cs, es, n)
    ensures ByRelease(es, n, cs[n].free)
  {
    hide Inv, Step, Careful, ByRelease;
    FreeAtStart(cs, es);
    if n > 0 {
      FreeByRelease(cs, es, n - 1);
      RunKeeps(cs, es, n - 1);
      FreeStep(cs[n - 1], es, n - 1, cs[n]);
    }
  }

  /** A buffer released goes to the front with the latest stamp. */
  lemma ReleaseStamps(c: Cache, es: seq<Event>, n: nat, i: nat, c': Cache)
    requires n < |es| && Inv(c) && es[n] == Release(i) && Step(c, es[n], c') && ByRelease(es, n, c.free)
    ensures ByRelease(es, n + 1, c'.free)
  {
    hide Hashed, AllHonest;
    assert i !in c.free;
    ByReleaseNext(es, n, c.free);
    forall a | 0 <= a < |c.free|
      ensures LastRelease(es, n + 1, c.free[a]) < n
    {
      LastReleaseBefore(es, n, c.free[a]);
    }
  }

  lemma FreeStep(c: Cache, es: seq<Event>, n: nat, c': Cache)
    requires n < |es| && Inv(c) && Step(c, es[n], c') && ByRelease(es, n, c.free)
    ensures ByRelease(es, n + 1, c'.free)
  {
    hide Hashed, AllHonest;
    match es[n] {
      case Bread(k, r) =>
        WithoutByRelease(es, n, c.free, r);
        assert c'.free == c.free || c'.free == Without(c.free, r);
        ByReleaseNext(es, n, c'.free);
      case Resume(k, r) =>
        WithoutByRelease(es, n, c.free, r);
        assert c'.free == Without(c.free, r);
        ByReleaseNext(es, n, c'.free);
      case Release(i) =>
        ReleaseStamps(c, es, n, i, c');
      case _ =>
        ByReleaseNext(es, n, c.free);
    }
  }

  /** A buffer that is taken over for another block is, of all unused ones, the one released longest ago. */
  lemma EvictsOldest(cs: seq<Cache>, es: seq<Event>, n: nat, i: nat)
    requires CarefulRun(cs, es, n) && n < |es|
    requires ((es[n].Bread? && !Cached(cs[n], es[n].k)) || es[n].Resume?) && es[n].r < |cs[n].buffers|
    requires i < |cs[n].buffers| && cs[n].buffers[i].count == 0
    ensures |cs[n].buffers| >= MAX_BUFFERS && cs[n].buffers[es[n].r].count == 0 && !cs[n].buffers[es[n].r].dirty
    ensures 0 <= LastRelease(es, n, es[n].r) <= LastRelease(es, n, i)
  {
    hide Hashed;
    RunKeeps(cs, es, n);
    FreeByRelease(cs, es, n);
    var free := cs[n].free;
    assert Step(cs[n], es[n], cs[n + 1]);
    assert i in free && es[n].r in free;
    var a :| 0 <= a < |free| && free[a] == i;
  }
}
