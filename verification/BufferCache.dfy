/** The buffer cache as a value: buffers, hash buckets, the list of unused buffers, and the disk behind them. */
module BufferCache {
  import opened Blocks
  import opened Queues

  const HASH_COUNT := 31

  /** As many headers and blocks as fit into the buffers' memory. */
  const MAX_BUFFERS := 3855

  datatype Key = Key(dev: bv32, block: bv32)

  datatype Buffer = Buffer(key: Key, count: nat, dirty: bool, valid: bool, data: Block)

  /** buckets and free hold positions in buffers; a list's first element is the one pushed last. */
  datatype Cache = Cache(buffers: seq<Buffer>, buckets: seq<seq<nat>>, free: seq<nat>, disk: map<Key, Block>)

  function Hash(k: Key): (h: nat)
    ensures h < HASH_COUNT
  {
    ((k.dev ^ k.block) as nat) % HASH_COUNT
  }

  function DiskAt(c: Cache, k: Key): Block {
    if k in c.disk then c.disk[k] else seq(BLOCK_SIZE, _ => 0)
  }

  /** list holds exactly the buffers whose key hashes to h, once each. */
  ghost predicate BucketOk(buffers: seq<Buffer>, list: seq<nat>, h: nat) {
    && NoDup(list)
    && (forall i: nat | i in list :: i < |buffers| && Hash(buffers[i].key) == h)
    && (forall i: nat | i < |buffers| && Hash(buffers[i].key) == h :: i in list)
  }

  ghost predicate Hashed(c: Cache) {
    && |c.buckets| == HASH_COUNT
    && (forall h: nat | h < HASH_COUNT :: BucketOk(c.buffers, c.buckets[h], h))
  }

  /** At most one buffer for a block. */
  ghost predicate OneEach(c: Cache) {
    forall i, j | 0 <= i < |c.buffers| && 0 <= j < |c.buffers| && c.buffers[i].key == c.buffers[j].key :: i == j
  }

  /** A buffer is on the free list exactly when nobody holds it. */
  ghost predicate FreeUnheld(c: Cache) {
    && NoDup(c.free)
    && (forall i: nat | i in c.free :: i < |c.buffers| && c.buffers[i].count == 0)
    && (forall i: nat | i < |c.buffers| && c.buffers[i].count == 0 :: i in c.free)
  }

  /** What a buffer promises about its contents. */
  ghost predicate Honest(c: Cache, b: Buffer) {
    && (b.count == 0 ==> !b.dirty)
    && (!b.dirty ==> b.data == DiskAt(c, b.key))
  }

  /** Buffer i is exempt: it has just been taken over and not read yet. */
  ghost predicate AllHonest(c: Cache, except: int) {
    forall i | 0 <= i < |c.buffers| && i != except :: c.buffers[i].valid && Honest(c, c.buffers[i])
  }

  ghost predicate Wired(c: Cache) {
    Hashed(c) && OneEach(c) && FreeUnheld(c)
  }

  ghost predicate Inv(c: Cache) {
    Wired(c) && AllHonest(c, -1)
  }

  // ---------- what users of the cache see ----------

  ghost predicate Cached(c: Cache, k: Key) {
    exists i :: 0 <= i < |c.buffers| && c.buffers[i].key == k
  }

  /** The contents of a block: the buffer's if there is one, the disk's otherwise. */
  ghost function Logical(c: Cache, k: Key): Block {
    if Cached(c, k) then
      var i :| 0 <= i < |c.buffers| && c.buffers[i].key == k;
      c.buffers[i].data
    else DiskAt(c, k)
  }

  // ---------- the operations ----------

  /** A block that is cached: taken off the free list if it is there. */
  function Hit(c: Cache, i: nat): Cache
    requires i < |c.buffers|
  {
    c.(free := Without(c.free, i), buffers := c.buffers[i := c.buffers[i].(count := c.buffers[i].count + 1)])
  }

  /** A new buffer for block k. */
  function Added(c: Cache, k: Key, data: Block): Cache
    requires |c.buckets| == HASH_COUNT
  {
    var h := Hash(k);
    c.(buffers := c.buffers + [Buffer(k, 1, false, false, data)],
       buckets := c.buckets[h := [|c.buffers|] + c.buckets[h]])
  }

  /** An unused buffer v taken over for block k. */
  function TakenOver(c: Cache, v: nat, k: Key): Cache
    requires |c.buckets| == HASH_COUNT && v < |c.buffers|
  {
    var h := Hash(c.buffers[v].key);
    var out := c.buckets[h := Without(c.buckets[h], v)];
    c.(free := Without(c.free, v),
       buffers := c.buffers[v := Buffer(k, 1, false, false, c.buffers[v].data)],
       buckets := out[Hash(k) := [v] + out[Hash(k)]])
  }

  /** Reading the block from the disk. */
  function Filled(c: Cache, i: nat): Cache
    requires i < |c.buffers|
  {
    c.(buffers := c.buffers[i := c.buffers[i].(dirty := false, valid := true, data := DiskAt(c, c.buffers[i].key))])
  }

  /** The holder changes the contents and says so. */
  function Touched(c: Cache, i: nat, data: Block): Cache
    requires i < |c.buffers|
  {
    c.(buffers := c.buffers[i := c.buffers[i].(dirty := true, data := data)])
  }

  /** bwrite. */
  function Flushed(c: Cache, i: nat): Cache
    requires i < |c.buffers|
  {
    var b := c.buffers[i];
    if !b.dirty then c
    else c.(disk := c.disk[b.key := b.data], buffers := c.buffers[i := b.(dirty := false, valid := true)])
  }

  /** The first half of bwrite: the device has the block, the buffer still counts as dirty. */
  function WrittenOut(c: Cache, i: nat): Cache
    requires i < |c.buffers|
  {
    c.(disk := c.disk[c.buffers[i].key := c.buffers[i].data])
  }

  /** The second half, after which the buffer counts as clean whatever it holds by now. */
  function Cleaned(c: Cache, i: nat): Cache
    requires i < |c.buffers|
  {
    c.(buffers := c.buffers[i := c.buffers[i].(dirty := false, valid := true)])
  }

  /** brelse. */
  function Released(c: Cache, i: nat): Cache
    requires i < |c.buffers| && c.buffers[i].count > 0
  {
    var d := Flushed(c, i);
    var b := d.buffers[i];
    d.(buffers := d.buffers[i := b.(count := b.count - 1)], free := if b.count == 1 then [i] + d.free else d.free)
  }

  // ---------- each operation keeps the lists and tables ----------

  /** Changing anything but the keys leaves the buckets right. */
  lemma SameKeysHashed(c: Cache, d: Cache)
    requires Hashed(c) && d.buckets == c.buckets && |d.buffers| == |c.buffers|
    requires forall i | 0 <= i < |c.buffers| :: d.buffers[i].key == c.buffers[i].key
    ensures Hashed(d)
  {
    forall h: nat | h < HASH_COUNT
      ensures BucketOk(d.buffers, d.buckets[h], h)
    {
      assert BucketOk(c.buffers, c.buckets[h], h);
    }
  }

  lemma HitWired(c: Cache, i: nat)
    requires Wired(c) && i < |c.buffers|
    ensures Wired(Hit(c, i))
  {
    hide Hash;
    SameKeysHashed(c, Hit(c, i));
    WithoutNoDup(c.free, i);
  }

  lemma AddedWired(c: Cache, k: Key, data: Block)
    requires Wired(c) && !Cached(c, k)
    ensures Wired(Added(c, k, data))
  {
    hide Hash;
    var d := Added(c, k, data);
    forall h: nat | h < HASH_COUNT
      ensures BucketOk(d.buffers, d.buckets[h], h)
    {
      BucketAdded(c.buffers, c.buckets[h], h, Buffer(k, 1, false, false, data));
    }
  }

  lemma BucketAdded(buffers: seq<Buffer>, list: seq<nat>, h: nat, b: Buffer)
    requires BucketOk(buffers, list, h)
    ensures BucketOk(buffers + [b], if Hash(b.key) == h then [|buffers|] + list else list, h)
  {
    hide Hash;
    var all := buffers + [b];
    var r := if Hash(b.key) == h then [|buffers|] + list else list;
    NoDupPush(|buffers|, list);
    forall i: nat | i < |all| && Hash(all[i].key) == h
      ensures i in r
    {
      if i < |buffers| {
        assert all[i] == buffers[i] && i in list;
      }
    }
  }

  /** No buffer but perhaps v is for block k. */
  ghost predicate NoOther(c: Cache, v: nat, k: Key) {
    forall i | 0 <= i < |c.buffers| && c.buffers[i].key == k :: i == v
  }

  lemma TakenOverWired(c: Cache, v: nat, k: Key)
    requires Wired(c) && NoOther(c, v, k) && v < |c.buffers|
    ensures Wired(TakenOver(c, v, k))
  {
    hide Hash;
    WithoutNoDup(c.free, v);
    TakenOverHashed(c, v, k);
  }

  lemma TakenOverHashed(c: Cache, v: nat, k: Key)
    requires Hashed(c) && v < |c.buffers|
    ensures Hashed(TakenOver(c, v, k))
  {
    hide Hash;
    var d := TakenOver(c, v, k);
    forall h: nat | h < HASH_COUNT
      ensures BucketOk(d.buffers, d.buckets[h], h)
    {
      assert BucketOk(c.buffers, c.buckets[h], h);
      BucketTakenOver(c.buffers, c.buckets[h], h, v, d.buffers[v]);
    }
  }

  lemma BucketTakenOver(buffers: seq<Buffer>, list: seq<nat>, h: nat, v: nat, b: Buffer)
    requires BucketOk(buffers, list, h) && v < |buffers|
    ensures BucketOk(buffers[v := b], if Hash(b.key) == h then [v] + Without(list, v) else Without(list, v), h)
  {
    hide Hash;
    WithoutNoDup(list, v);
  }

  lemma ReleasedWired(c: Cache, i: nat)
    requires Wired(c) && i < |c.buffers| && c.buffers[i].count > 0
    ensures Wired(Released(c, i))
  {
    hide Hash;
    SameKeysHashed(c, Released(c, i));
  }

  // ---------- each operation keeps the contents ----------

  /** A block that is not cached reads as the disk; a cached one as its buffer. */
  lemma LogicalCases(c: Cache, k: Key)
    requires OneEach(c)
    ensures forall i | 0 <= i < |c.buffers| && c.buffers[i].key == k :: Logical(c, k) == c.buffers[i].data
    ensures (forall i | 0 <= i < |c.buffers| :: c.buffers[i].key != k) ==> Logical(c, k) == DiskAt(c, k)
  {}

  /** d agrees with c on every block but k, where it has data. */
  ghost predicate ViewOf(c: Cache, d: Cache, k: Key, data: Block) {
    forall j :: Logical(d, j) == if j == k then data else Logical(c, j)
  }

  ghost predicate SameView(c: Cache, d: Cache) {
    forall j :: Logical(d, j) == Logical(c, j)
  }

  lemma HitKeeps(c: Cache, i: nat)
    requires Inv(c) && i < |c.buffers|
    ensures Inv(Hit(c, i)) && SameView(c, Hit(c, i))
  {
    hide BucketOk, FreeUnheld;
    HitWired(c, i);
    var d := Hit(c, i);
    forall k
      ensures Logical(d, k) == Logical(c, k)
    {
      LogicalCases(c, k);
      LogicalCases(d, k);
      assert forall j | 0 <= j < |c.buffers| :: d.buffers[j].key == c.buffers[j].key && d.buffers[j].data == c.buffers[j].data;
    }
  }

  /** A new buffer, once read, shows what the disk has, which is what the block looked like before. */
  lemma AddedKeeps(c: Cache, k: Key, data: Block)
    requires Inv(c) && !Cached(c, k)
    ensures var d := Filled(Added(c, k, data), |c.buffers|);
            Inv(d) && SameView(c, d) && d.buffers[|c.buffers|].data == Logical(c, k)
  {
    hide BucketOk, FreeUnheld;
    AddedWired(c, k, data);
    var a := Added(c, k, data);
    var d := Filled(a, |c.buffers|);
    FilledWired(a, |c.buffers|);
    forall j
      ensures Logical(d, j) == Logical(c, j)
    {
      LogicalCases(c, j);
      LogicalCases(d, j);
      assert forall i | 0 <= i < |c.buffers| :: d.buffers[i] == c.buffers[i];
    }
    LogicalCases(c, k);
  }

  lemma FilledWired(c: Cache, i: nat)
    requires Wired(c) && i < |c.buffers|
    ensures Wired(Filled(c, i))
  {
    hide Hash;
    SameKeysHashed(c, Filled(c, i));
  }

  /** Taking over an unused buffer loses nothing: it was clean, so the disk has its contents. */
  lemma TakenOverKeeps(c: Cache, v: nat, k: Key)
    requires Inv(c) && NoOther(c, v, k) && v < |c.buffers| && c.buffers[v].count == 0
    ensures var d := Filled(TakenOver(c, v, k), v);
            Inv(d) && SameView(c, d) && d.buffers[v].data == Logical(c, k)
  {
    hide BucketOk, FreeUnheld;
    TakenOverWired(c, v, k);
    var a := TakenOver(c, v, k);
    var d := Filled(a, v);
    FilledWired(a, v);
    forall j
      ensures Logical(d, j) == Logical(c, j)
    {
      LogicalCases(c, j);
      LogicalCases(d, j);
      assert forall i | 0 <= i < |c.buffers| && i != v :: d.buffers[i] == c.buffers[i];
    }
    LogicalCases(c, k);
  }

  /** The holder's change is seen on that block alone. */
  lemma TouchedKeeps(c: Cache, i: nat, data: Block)
    requires Inv(c) && i < |c.buffers| && c.buffers[i].count > 0
    ensures Inv(Touched(c, i, data)) && ViewOf(c, Touched(c, i, data), c.buffers[i].key, data)
  {
    hide Hash;
    var d := Touched(c, i, data);
    SameKeysHashed(c, d);
    forall j
      ensures Logical(d, j) == if j == c.buffers[i].key then data else Logical(c, j)
    {
      LogicalCases(c, j);
      LogicalCases(d, j);
    }
  }

  lemma FlushedKeeps(c: Cache, i: nat)
    requires Inv(c) && i < |c.buffers|
    ensures Inv(Flushed(c, i)) && SameView(c, Flushed(c, i))
  {
    hide Hash;
    var d := Flushed(c, i);
    SameKeysHashed(c, d);
    forall j
      ensures Logical(d, j) == Logical(c, j)
    {
      LogicalCases(c, j);
      LogicalCases(d, j);
    }
  }

  lemma WrittenOutKeeps(c: Cache, i: nat)
    requires Inv(c) && i < |c.buffers|
    ensures Inv(WrittenOut(c, i)) && SameView(c, WrittenOut(c, i))
  {
    hide Hash;
    var d := WrittenOut(c, i);
    SameKeysHashed(c, d);
    forall j
      ensures Logical(d, j) == Logical(c, j)
    {
      LogicalCases(c, j);
      LogicalCases(d, j);
    }
  }

  /** Counting a buffer as clean changes no contents, and is right exactly if the disk has what the buffer holds. */
  lemma CleanedIffSynced(c: Cache, i: nat)
    requires Inv(c) && i < |c.buffers|
    ensures Inv(Cleaned(c, i)) <==> c.buffers[i].data == DiskAt(c, c.buffers[i].key)
    ensures SameView(c, Cleaned(c, i))
  {
    hide Hash;
    var d := Cleaned(c, i);
    SameKeysHashed(c, d);
    assert c.buffers[i].data != DiskAt(c, c.buffers[i].key) ==> !Honest(d, d.buffers[i]);
    forall j
      ensures Logical(d, j) == Logical(c, j)
    {
      LogicalCases(c, j);
      LogicalCases(d, j);
    }
  }

  lemma ReleasedKeeps(c: Cache, i: nat)
    requires Inv(c) && i < |c.buffers| && c.buffers[i].count > 0
    ensures Inv(Released(c, i)) && SameView(c, Released(c, i))
  {
    hide Hash;
    var d := Flushed(c, i);
    var e := Released(c, i);
    FlushedKeeps(c, i);
    ReleasedWired(c, i);
    forall j
      ensures Logical(e, j) == Logical(d, j)
    {
      LogicalCases(d, j);
      LogicalCases(e, j);
    }
  }

  // ---------- how many holders there are ----------

  function Holds(buffers: seq<Buffer>): nat {
    if buffers == [] then 0 else Holds(buffers[..|buffers| - 1]) + buffers[|buffers| - 1].count
  }

  lemma {:induction false} HoldsUpdate(buffers: seq<Buffer>, i: nat, b: Buffer)
    requires i < |buffers|
    ensures Holds(buffers[i := b]) == Holds(buffers) - buffers[i].count + b.count
  {
    var n := |buffers| - 1;
    if i < n {
      HoldsUpdate(buffers[..n], i, b);
      assert buffers[i := b][..n] == buffers[..n][i := b];
    } else {
      assert buffers[i := b][..n] == buffers[..n];
    }
  }

  lemma {:induction false} EachHeld(buffers: seq<Buffer>)
    requires forall i | 0 <= i < |buffers| :: buffers[i].count > 0
    ensures Holds(buffers) >= |buffers|
  {
    if buffers != [] {
      EachHeld(buffers[..|buffers| - 1]);
    }
  }

  /** Every buffer is held exactly when none is free; with fewer holders than buffers there is a free one. */
  lemma AllHeldNoneFree(c: Cache)
    requires Inv(c)
    ensures c.free == [] <==> forall i | 0 <= i < |c.buffers| :: c.buffers[i].count > 0
    ensures Holds(c.buffers) < |c.buffers| ==> c.free != []
  {
    hide Hashed, AllHonest;
    if c.free == [] {
      EachHeld(c.buffers);
    } else {
      assert c.free[0] in c.free;
    }
  }
}
