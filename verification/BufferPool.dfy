/** The buffer cache itself: hash chains searched by loops, buffers handed out from a bump allocator. */
module BufferPool {
  import opened Blocks
  import opened BufferCache
  import opened CacheRuns
  import opened Options
  import opened Queues

  const BUFFER_MEM := 0x80_0000
  const BUFFER_MEM_SIZE := 0x40_0000
  const HEADER_SIZE := 64

  class Pool {
    var buffers: seq<Buffer>
    const hashTable: array<seq<nat>>
    var freeList: seq<nat>
    /** Tasks that sleep for want of a buffer, the last to come first. */
    var waiters: seq<nat>
    var disk: map<Key, Block>
    var bufferPtr: int
    var bufferData: int

    ghost function St(): Cache
      reads this, hashTable
    {
      Cache(buffers, hashTable[..], freeList, disk)
    }

    /** Headers grow up, data blocks grow down, and the two never meet. */
    ghost predicate Layout()
      reads this
    {
      && bufferPtr == BUFFER_MEM + HEADER_SIZE * |buffers|
      && bufferData == BUFFER_MEM + BUFFER_MEM_SIZE - BLOCK_SIZE * (|buffers| + 1)
      && bufferPtr <= bufferData + BLOCK_SIZE
    }

    ghost predicate Valid()
      reads this, hashTable
    {
      hashTable.Length == HASH_COUNT && Layout() && Inv(St())
    }

    constructor (disk: map<Key, Block>)
      ensures Valid() && fresh(hashTable) && Empty(St()) && this.disk == disk
    {
      hashTable := new seq<nat>[HASH_COUNT](_ => []);
      buffers, freeList, waiters := [], [], [];
      this.disk := disk;
      bufferPtr := BUFFER_MEM;
      bufferData := BUFFER_MEM + BUFFER_MEM_SIZE - BLOCK_SIZE;
      new;
      EmptyInv(St());
    }

    /** Walk the chain of k's bucket. */
    method Search(k: Key) returns (r: Option<nat>)
      requires Valid()
      ensures r.Some? ==> r.value < |buffers| && buffers[r.value].key == k
      ensures r.None? ==> !Cached(St(), k)
    {
      var chain := hashTable[Hash(k)];
      assert BucketOk(buffers, chain, Hash(k));
      assert forall j | 0 <= j < |chain| :: chain[j] in chain && chain[j] < |buffers|;
      var node := 0;
      while node < |chain|
        invariant 0 <= node <= |chain|
        invariant forall j | 0 <= j < node :: buffers[chain[j]].key != k
      {
        var i := chain[node];
        if buffers[i].key == k {
          return Some(i);
        }
        node := node + 1;
      }
      return None;
    }

    /** A buffer for block k, with one more holder. None stands for the case in which the caller has to sleep: the block is
        not cached, the memory is full, and somebody holds each buffer. */
    method Bread(k: Key) returns (r: Option<nat>)
      requires Valid()
      modifies this`buffers, this`freeList, this`bufferPtr, this`bufferData, hashTable
      ensures Valid()
      ensures r.Some? ==> BreadStep(old(St()), k, r.value, St())
      ensures r.Some? ==> r.value < |buffers| && buffers[r.value].key == k && buffers[r.value].data == Logical(old(St()), k)
      ensures r.None? ==> St() == old(St())
      ensures r.None? <==> !Cached(old(St()), k) && |old(buffers)| == MAX_BUFFERS &&
                           forall i | 0 <= i < |old(buffers)| :: old(buffers)[i].count > 0
      ensures Holds(old(buffers)) < MAX_BUFFERS ==> r.Some?
    {
      hide Inv, Hash;
      ghost var c := St();
      AllHeldNoneFree(c);
      r := Getblk(k);
      if r.Some? {
        var i := r.value;
        if !buffers[i].valid {
          buffers := buffers[i := buffers[i].(dirty := false, valid := true, data := DiskBlock(k))];
        }
        BreadKeeps(c, k, i, St());
      }
    }

    /** What the device returns. */
    function DiskBlock(k: Key): Block
      reads this`disk
    {
      if k in disk then disk[k] else seq(BLOCK_SIZE, _ => 0)
    }

    /** A buffer for block k, read or not: the cached one, a new one, or the unused one at the far end of the free list. */
    method Getblk(k: Key) returns (r: Option<nat>)
      requires Valid()
      modifies this`buffers, this`freeList, this`bufferPtr, this`bufferData, hashTable
      ensures hashTable.Length == HASH_COUNT && Layout()
      ensures r.Some? ==> Gotten(old(St()), k, r.value, St())
      ensures r.None? ==> St() == old(St())
      ensures r.None? <==> !Cached(old(St()), k) && |old(buffers)| == MAX_BUFFERS && old(freeList) == []
    {
      hide Hash;
      r := Search(k);
      if r.Some? {
        var i := r.value;
        freeList := Without(freeList, i);
        buffers := buffers[i := buffers[i].(count := buffers[i].count + 1)];
        return;
      }
      if bufferPtr + HEADER_SIZE < bufferData {
        var added := Buffer(k, 1, false, false, seq(BLOCK_SIZE, _ => 0));
        PushBucket(Hash(k), |buffers|);
        r := Some(|buffers|);
        buffers := buffers + [added];
        bufferPtr := bufferPtr + HEADER_SIZE;
        bufferData := bufferData - BLOCK_SIZE;
        assert St() == Added(old(St()), k, added.data);
        return;
      }
      if freeList != [] {
        var v := TakeUnused(k);
        return Some(v);
      }
    }

    /** The buffer at the far end of the free list is taken over for block k. */
    method TakeUnused(k: Key) returns (v: nat)
      requires Valid() && freeList != []
      modifies this`buffers, this`freeList, hashTable
      ensures hashTable.Length == HASH_COUNT && Layout()
      ensures v == old(freeList[|freeList| - 1]) && v < |old(buffers)| && St() == TakenOver(old(St()), v, k)
    {
      hide Hash;
      v := freeList[|freeList| - 1];
      assert v in freeList;
      WithoutAt(freeList, |freeList| - 1);
      freeList := freeList[..|freeList| - 1];
      var h := Hash(buffers[v].key);
      hashTable[h] := Without(hashTable[h], v);
      PushBucket(Hash(k), v);
      buffers := buffers[v := Buffer(k, 1, false, false, buffers[v].data)];
    }

    /**
     * The rest of a read that slept for want of a buffer, once its task is woken: the unused buffer, if it is still there,
     * is taken without another look for the block. None: the process sleeps again.
     */
    method BreadWoken(k: Key) returns (r: Option<nat>)
      requires Valid() && bufferPtr + HEADER_SIZE >= bufferData
      modifies this`buffers, this`freeList, hashTable
      ensures r.None? <==> old(freeList) == []
      ensures r.None? ==> St() == old(St())
      ensures r.Some? ==> ResumeStep(old(St()), k, r.value, St()) && (Valid() <==> NoOther(old(St()), r.value, k))
    {
      hide Inv, Hash, NoOther;
      if freeList == [] {
        return None;
      }
      ghost var c := St();
      UnusedExists(c);
      var v := TakeUnused(k);
      buffers := buffers[v := buffers[v].(dirty := false, valid := true, data := DiskBlock(k))];
      assert St() == Filled(TakenOver(c, v, k), v);
      ResumeExact(c, k, v, St());
      return Some(v);
    }

    /** task_block on the wait list. */
    method WaitForBuffer(task: nat)
      requires Valid()
      modifies this`waiters
      ensures Valid() && waiters == [task] + old(waiters) && St() == old(St())
    {
      waiters := [task] + waiters;
    }

    method PushBucket(h: nat, i: nat)
      requires h < hashTable.Length
      modifies hashTable
      ensures hashTable[..] == old(hashTable[..])[h := [i] + old(hashTable[h])]
    {
      hashTable[h] := [i] + hashTable[h];
    }

    /** The first half of bwrite: the device gets the block. What follows may come after a sleep. */
    method SendOut(i: nat)
      requires Valid() && i < |buffers|
      modifies this`disk
      ensures Valid() && St() == WrittenOut(old(St()), i)
    {
      hide Hash;
      WrittenOutKeeps(St(), i);
      disk := disk[buffers[i].key := buffers[i].data];
    }

    /** The second half: the buffer counts as clean, whatever it holds by now. */
    method MarkClean(i: nat)
      requires Valid() && i < |buffers|
      modifies this`buffers
      ensures i < |old(buffers)| && St() == Cleaned(old(St()), i)
      ensures Valid() <==> Synced(old(St()), i)
    {
      hide Hash;
      CleanedIffSynced(St(), i);
      buffers := buffers[i := buffers[i].(dirty := false, valid := true)];
    }

    /** bwrite without a sleep: write the block to the disk if the buffer is dirty. */
    method Bwrite(i: nat)
      requires Valid() && i < |buffers|
      modifies this`buffers, this`disk
      ensures Valid() && Step(old(St()), Flush(i), St())
    {
      hide Hash;
      if buffers[i].dirty {
        SendOut(i);
        MarkClean(i);
      }
    }

    /** One holder less; a dirty block is written first, an unused buffer goes to the front of the free list and wakes the
        task that has slept longest for want of a buffer. */
    method Brelse(i: nat) returns (woken: Option<nat>)
      requires Valid() && i < |buffers| && buffers[i].count > 0
      modifies this`buffers, this`disk, this`freeList, this`waiters
      ensures Valid() && Step(old(St()), Release(i), St())
      ensures woken.Some? <==> old(buffers[i].count) == 1 && old(waiters) != []
      ensures old(waiters) == waiters + if woken.Some? then [woken.value] else []
    {
      woken := None;
      hide Hash;
      ghost var c := St();
      ReleasedKeeps(c, i);
      if buffers[i].dirty {
        Bwrite(i);
      }
      buffers := buffers[i := buffers[i].(count := buffers[i].count - 1)];
      if buffers[i].count > 0 {
        assert St() == Released(c, i);
        return;
      }
      freeList := [i] + freeList;
      assert St() == Released(c, i);
      if waiters != [] {
        woken := Some(waiters[|waiters| - 1]);
        waiters := waiters[..|waiters| - 1];
      }
    }
  }

  lemma UnusedExists(c: Cache)
    requires Inv(c) && c.free != []
    ensures c.free[|c.free| - 1] < |c.buffers| && |c.buckets| == HASH_COUNT
  {
    assert c.free[|c.free| - 1] in c.free;
  }

  /** What getblk leaves: a hit on a buffer that has been read, or a buffer still to be read. */
  ghost predicate Gotten(c: Cache, k: Key, r: nat, c': Cache) {
    && r < |c'.buffers| && c'.buffers[r].key == k && |c.buckets| == HASH_COUNT
    && (if Cached(c, k) then c'.buffers[r].valid && BreadStep(c, k, r, c')
        else !c'.buffers[r].valid && BreadStep(c, k, r, Filled(c', r)))
  }
}
