/** Files as byte sequences: what writing one chunk, and then a whole buffer, does to every file of a volume. */
module FileContents {
  import opened Blocks
  import opened BlockTree
  import opened Bytes
  import opened Limits

  const MAX_SIZE := BLOCK_SIZE * TOTAL_BLOCK

  function BlockOf(v: Volume, n: nat, b: nat): Word
    requires Shaped(v) && n in v.inodes && b < TOTAL_BLOCK
  {
    ZoneAt(v, n, PosOf(b))
  }

  /** The byte at offset o of file n. */
  function FileByte(v: Volume, n: nat, o: nat): Byte
    requires Shaped(v) && n in v.inodes && o < MAX_SIZE
  {
    v.disk[BlockOf(v, n, o / BLOCK_SIZE)][o % BLOCK_SIZE]
  }

  /** The k-th zone number of an index block: two bytes, the lower one first. */
  function NumberAt(block: Block, k: nat): nat
    requires k < 512
  {
    (block[2 * k] as int) + 256 * (block[2 * k + 1] as int)
  }

  /** Where the disk says that the blocks of a file are: seven in the inode, 512 behind one index block, 512 times 512 behind two. */
  lemma BlockLayout(v: Volume, n: nat, i: nat, j: nat)
    requires Shaped(v) && n in v.inodes && i < 512 && j < 512
    ensures var zone := v.inodes[n].zone;
            && (i < 7 ==> BlockOf(v, n, i) == zone[i])
            && BlockOf(v, n, 7 + i) == (if zone[7] == 0 then 0 else NumberAt(v.disk[zone[7]], i))
            && BlockOf(v, n, 519 + 512 * i + j) ==
                 (if zone[8] == 0 then 0 else
                    var y := NumberAt(v.disk[zone[8]], i);
                    if y == 0 then 0 else NumberAt(v.disk[y], j))
  {
    assert PosOf(7 + i) == SingleData(i) && PosOf(519 + 512 * i + j) == DoubleData(i, j);
    EntryBelow(v, n, SingleData(i));
    EntryBelow(v, n, DoubleIndex(i));
    EntryBelow(v, n, DoubleData(i, j));
  }

  lemma EntryBelow(v: Volume, n: nat, p: Pos)
    requires Shaped(v) && n in v.inodes && !p.Root()
    ensures ZoneAt(v, n, p) == if ZoneAt(v, n, p.Parent()) == 0 then 0 else NumberAt(v.disk[ZoneAt(v, n, p.Parent())], p.Place())
  {}

  /** A byte of a file is the byte at the same place of its block. */
  lemma ByteLayout(v: Volume, n: nat, b: nat, k: nat)
    requires Shaped(v) && n in v.inodes && b < TOTAL_BLOCK && k < 1024
    ensures FileByte(v, n, 1024 * b + k) == v.disk[BlockOf(v, n, b)][k]
  {
    assert (1024 * b + k) / BLOCK_SIZE == b && (1024 * b + k) % BLOCK_SIZE == k;
  }

  /** Every block below the size is there. */
  ghost predicate AllMapped(v: Volume, n: nat)
    requires Shaped(v) && n in v.inodes
  {
    forall b: nat | b * BLOCK_SIZE < v.inodes[n].size :: BlockOf(v, n, b) != 0
  }

  /** No block at or beyond the size is there. */
  ghost predicate NoneBeyond(v: Volume, n: nat)
    requires Shaped(v) && n in v.inodes
  {
    forall b: nat | b < TOTAL_BLOCK && b * BLOCK_SIZE >= v.inodes[n].size :: BlockOf(v, n, b) == 0
  }

  /** The whole file. */
  function Contents(v: Volume, n: nat): seq<Byte>
    requires Shaped(v) && n in v.inodes
  {
    seq(v.inodes[n].size, (o: nat) requires o < v.inodes[n].size => FileByte(v, n, o))
  }

  /** A flat sequence of bytes after data is written at offset off. */
  function Overwrite(old_: seq<Byte>, off: nat, data: seq<Byte>): seq<Byte>
    requires off <= |old_|
  {
    old_[..off] + data + (if off + |data| < |old_| then old_[off + |data|..] else [])
  }

  // ---------- mapping one block ----------

  /** Block b of file n is there in v'; nothing else about any file has changed. */
  ghost predicate MappedOne(v: Volume, v': Volume, n: nat, b: nat) {
    && Shaped(v) && Shaped(v') && n in v.inodes && b < TOTAL_BLOCK
    && v'.inodes.Keys == v.inodes.Keys
    && (forall m | m in v.inodes :: v'.inodes[m].size == v.inodes[m].size)
    && BlockOf(v', n, b) != 0
    && (forall m, c: nat | m in v.inodes && c < TOTAL_BLOCK && (m != n || c != b) :: BlockOf(v', m, c) == BlockOf(v, m, c))
    && (forall m, o: nat | m in v.inodes && o < MAX_SIZE && BlockOf(v, m, o / BLOCK_SIZE) != 0 ::
          FileByte(v', m, o) == FileByte(v, m, o))
  }

  lemma GrownMapsOne(v: Volume, v': Volume, n: nat, b: nat)
    requires b < TOTAL_BLOCK && Grown(v, v', n, PosOf(b)) && BlockOf(v', n, b) != 0
    ensures MappedOne(v, v', n, b)
  {
    forall m, c: nat | m in v.inodes && c < TOTAL_BLOCK && (m != n || c != b)
      ensures BlockOf(v', m, c) == BlockOf(v, m, c)
    {
      if PosOf(c).Above(PosOf(b)) && c != b {
        AboveIsIndex(PosOf(c), PosOf(b));
      }
    }
  }

  // ---------- one chunk ----------

  function Splice(b: Block, start: nat, chunk: seq<Byte>): Block
    requires start + |chunk| <= BLOCK_SIZE
  {
    b[..start] + chunk + b[start + |chunk|..]
  }

  /** Copy chunk into block b of file n at the given place, and move the size up if the chunk ends beyond it. */
  function PutChunk(v: Volume, n: nat, b: nat, start: nat, chunk: seq<Byte>): Volume
    requires Shaped(v) && n in v.inodes && b < TOTAL_BLOCK
    requires start + |chunk| <= BLOCK_SIZE
  {
    var z := BlockOf(v, n, b);
    v.(disk := v.disk[z := Splice(v.disk[z], start, chunk)],
       inodes := v.inodes[n := v.inodes[n].(size := Max(v.inodes[n].size, b * BLOCK_SIZE + start + |chunk|))])
  }

  lemma {:induction false} PutChunkZones(v: Volume, n: nat, b: nat, start: nat, chunk: seq<Byte>, m: nat, q: Pos)
    requires Sound(v) && n in v.inodes && m in v.inodes && b < TOTAL_BLOCK
    requires start + |chunk| <= BLOCK_SIZE && BlockOf(v, n, b) != 0
    ensures Shaped(PutChunk(v, n, b, start, chunk))
    ensures ZoneAt(PutChunk(v, n, b, start, chunk), m, q) == ZoneAt(v, m, q)
    decreases q.Depth()
  {
    if !q.Root() {
      PutChunkZones(v, n, b, start, chunk, m, q.Parent());
      assert q.Parent().IsIndex() && !PosOf(b).IsIndex();
    }
  }

  lemma PutChunkKeepsSound(v: Volume, n: nat, b: nat, start: nat, chunk: seq<Byte>)
    requires Sound(v) && n in v.inodes && b < TOTAL_BLOCK
    requires start + |chunk| <= BLOCK_SIZE && BlockOf(v, n, b) != 0
    ensures Sound(PutChunk(v, n, b, start, chunk))
  {
    var v' := PutChunk(v, n, b, start, chunk);
    forall m, q: Pos | m in v.inodes
      ensures Shaped(v') && ZoneAt(v', m, q) == ZoneAt(v, m, q)
    {
      PutChunkZones(v, n, b, start, chunk, m, q);
    }
    assert Shaped(v') by { PutChunkZones(v, n, b, start, chunk, n, Single); }
  }

  lemma PutChunkBytes(v: Volume, n: nat, b: nat, start: nat, chunk: seq<Byte>, m: nat, o: nat)
    requires Sound(v) && n in v.inodes && m in v.inodes && b < TOTAL_BLOCK && o < MAX_SIZE
    requires start + |chunk| <= BLOCK_SIZE && BlockOf(v, n, b) != 0
    ensures Shaped(PutChunk(v, n, b, start, chunk))
    ensures BlockOf(PutChunk(v, n, b, start, chunk), m, o / BLOCK_SIZE) == BlockOf(v, m, o / BLOCK_SIZE)
    ensures var at := b * BLOCK_SIZE + start;
            FileByte(PutChunk(v, n, b, start, chunk), m, o)
            == if m == n && at <= o < at + |chunk| then chunk[o - at] else FileByte(v, m, o)
  {
    PutChunkZones(v, n, b, start, chunk, m, PosOf(o / BLOCK_SIZE));
    var z := BlockOf(v, n, b);
    if BlockOf(v, m, o / BLOCK_SIZE) == z {
      PosOfInjective(b, o / BLOCK_SIZE);
    }
  }

  /** v' differs from v exactly by chunk, stored from offset at on inside one block of file n. */
  ghost predicate Chunked(v: Volume, v': Volume, n: nat, at: nat, chunk: seq<Byte>) {
    && Shaped(v) && Shaped(v') && n in v.inodes && at + |chunk| <= MAX_SIZE
    && v'.inodes.Keys == v.inodes.Keys
    && (forall m | m in v.inodes ::
          v'.inodes[m].size == if m == n then Max(v.inodes[m].size, at + |chunk|) else v.inodes[m].size)
    && (forall m, c: nat | m in v.inodes && c < TOTAL_BLOCK :: BlockOf(v', m, c) == BlockOf(v, m, c))
    && (forall m, o: nat | m in v.inodes && o < MAX_SIZE ::
          FileByte(v', m, o) == if m == n && at <= o < at + |chunk| then chunk[o - at] else FileByte(v, m, o))
  }

  lemma PutChunkIsChunked(v: Volume, n: nat, b: nat, start: nat, chunk: seq<Byte>)
    requires Sound(v) && n in v.inodes && b < TOTAL_BLOCK
    requires start + |chunk| <= BLOCK_SIZE && BlockOf(v, n, b) != 0
    ensures Chunked(v, PutChunk(v, n, b, start, chunk), n, b * BLOCK_SIZE + start, chunk)
  {
    var v' := PutChunk(v, n, b, start, chunk);
    PutChunkZones(v, n, b, start, chunk, n, Single);
    forall m, c: nat | m in v.inodes && c < TOTAL_BLOCK
      ensures BlockOf(v', m, c) == BlockOf(v, m, c)
    {
      PutChunkZones(v, n, b, start, chunk, m, PosOf(c));
    }
    forall m, o: nat | m in v.inodes && o < MAX_SIZE
      ensures FileByte(v', m, o)
              == if m == n && b * BLOCK_SIZE + start <= o < b * BLOCK_SIZE + start + |chunk|
                 then chunk[o - (b * BLOCK_SIZE + start)] else FileByte(v, m, o)
    {
      PutChunkBytes(v, n, b, start, chunk, m, o);
    }
  }

  // ---------- a whole buffer ----------

  /** Block b meets the bytes off .. off+len-1. */
  predicate Touched(off: nat, len: nat, b: nat) {
    b * BLOCK_SIZE < off + len && off < (b + 1) * BLOCK_SIZE && len > 0
  }

  /**
   * v' is v after data has been written into file n at offset off, whatever the offset: which blocks
   * are there, which bytes changed, and that nothing else did.
   */
  ghost predicate Wrote(v: Volume, v': Volume, n: nat, off: nat, data: seq<Byte>) {
    && Shaped(v) && Shaped(v') && n in v.inodes && off + |data| <= MAX_SIZE
    && v'.inodes.Keys == v.inodes.Keys
    && (forall m | m in v.inodes ::
          v'.inodes[m].size == if m == n && data != [] then Max(v.inodes[m].size, off + |data|) else v.inodes[m].size)
    && (forall m, b: nat | m in v.inodes && b < TOTAL_BLOCK ::
          BlockOf(v', m, b) != 0 <==> BlockOf(v, m, b) != 0 || (m == n && Touched(off, |data|, b)))
    && (forall o: nat | off <= o < off + |data| :: FileByte(v', n, o) == data[o - off])
    && (forall m, o: nat | m in v.inodes && o < MAX_SIZE && BlockOf(v, m, o / BLOCK_SIZE) != 0
                           && !(m == n && off <= o < off + |data|) ::
          FileByte(v', m, o) == FileByte(v, m, o))
  }

  /** One turn of the write loop: map the block, then copy the chunk. */
  lemma {:induction false} WroteOneMore(v0: Volume, v1: Volume, v2: Volume, v3: Volume, n: nat, off: nat, data: seq<Byte>, chunk: seq<Byte>)
    requires Wrote(v0, v1, n, off, data)
    requires chunk != [] && (off + |data|) % BLOCK_SIZE + |chunk| <= BLOCK_SIZE
    requires data == [] || (off + |data|) % BLOCK_SIZE == 0
    requires MappedOne(v1, v2, n, (off + |data|) / BLOCK_SIZE)
    requires Chunked(v2, v3, n, off + |data|, chunk)
    ensures Wrote(v0, v3, n, off, data + chunk)
  {
    var all := data + chunk;
    BlocksAfterTurn(v0, v1, v2, v3, n, off, data, chunk);
    forall m, o: nat | m in v0.inodes && o < MAX_SIZE
      ensures m == n && off <= o < off + |all| ==> FileByte(v3, m, o) == all[o - off]
      ensures BlockOf(v0, m, o / BLOCK_SIZE) != 0 && !(m == n && off <= o < off + |all|) ==>
                FileByte(v3, m, o) == FileByte(v0, m, o)
    {
      ByteAfterTurn(v0, v1, v2, v3, n, off, data, chunk, m, o);
    }
  }

  lemma BlocksAfterTurn(v0: Volume, v1: Volume, v2: Volume, v3: Volume, n: nat, off: nat, data: seq<Byte>, chunk: seq<Byte>)
    requires Wrote(v0, v1, n, off, data)
    requires chunk != [] && (off + |data|) % BLOCK_SIZE + |chunk| <= BLOCK_SIZE
    requires data == [] || (off + |data|) % BLOCK_SIZE == 0
    requires MappedOne(v1, v2, n, (off + |data|) / BLOCK_SIZE)
    requires Chunked(v2, v3, n, off + |data|, chunk)
    ensures forall m, c: nat | m in v0.inodes && c < TOTAL_BLOCK ::
              BlockOf(v3, m, c) != 0 <==> BlockOf(v0, m, c) != 0 || (m == n && Touched(off, |data + chunk|, c))
  {
    forall m, c: nat | m in v0.inodes && c < TOTAL_BLOCK
      ensures BlockOf(v3, m, c) != 0 <==> BlockOf(v0, m, c) != 0 || (m == n && Touched(off, |data + chunk|, c))
    {
      TouchedOneMore(off, |data|, |chunk|, c);
    }
  }

  lemma ByteAfterTurn(v0: Volume, v1: Volume, v2: Volume, v3: Volume, n: nat, off: nat, data: seq<Byte>, chunk: seq<Byte>, m: nat, o: nat)
    requires Wrote(v0, v1, n, off, data)
    requires MappedOne(v1, v2, n, (off + |data|) / BLOCK_SIZE)
    requires Chunked(v2, v3, n, off + |data|, chunk)
    requires m in v0.inodes && o < MAX_SIZE
    ensures m == n && off <= o < off + |data + chunk| ==> FileByte(v3, m, o) == (data + chunk)[o - off]
    ensures BlockOf(v0, m, o / BLOCK_SIZE) != 0 && !(m == n && off <= o < off + |data + chunk|) ==>
              FileByte(v3, m, o) == FileByte(v0, m, o)
  {
    assert m == n && off <= o < off + |data| ==> Touched(off, |data|, o / BLOCK_SIZE);
  }

  lemma TouchedOneMore(off: nat, done: nat, len: nat, c: nat)
    requires len > 0 && (off + done) % BLOCK_SIZE + len <= BLOCK_SIZE
    requires done == 0 || (off + done) % BLOCK_SIZE == 0
    ensures Touched(off, done + len, c) <==> Touched(off, done, c) || c == (off + done) / BLOCK_SIZE
  {}

  // ---------- the flat view ----------

  /** Writing at or before the end of a file overwrites and extends its byte sequence. */
  lemma WroteIsOverwrite(v: Volume, v': Volume, n: nat, off: nat, data: seq<Byte>)
    requires Wrote(v, v', n, off, data) && AllMapped(v, n) && off <= v.inodes[n].size
    ensures AllMapped(v', n)
    ensures Contents(v', n) == Overwrite(Contents(v, n), off, data)
  {
    var size, size' := v.inodes[n].size, v'.inodes[n].size;
    var flat := Overwrite(Contents(v, n), off, data);
    assert |flat| == size';
    forall b: nat | b * BLOCK_SIZE < size'
      ensures BlockOf(v', n, b) != 0
    {
      if b * BLOCK_SIZE >= size {
        assert Touched(off, |data|, b);
      }
    }
    forall o: nat | o < size'
      ensures FileByte(v', n, o) == flat[o]
    {
      if !(off <= o < off + |data|) {
        assert o < size && (o / BLOCK_SIZE) * BLOCK_SIZE < size;
        assert flat[o] == Contents(v, n)[o];
      }
    }
  }

  /** Every other file keeps its bytes. */
  lemma WroteKeepsOthers(v: Volume, v': Volume, n: nat, off: nat, data: seq<Byte>, m: nat)
    requires Wrote(v, v', n, off, data) && m in v.inodes && m != n && AllMapped(v, m)
    ensures AllMapped(v', m)
    ensures Contents(v', m) == Contents(v, m)
  {
    forall o: nat | o < v.inodes[m].size
      ensures FileByte(v', m, o) == FileByte(v, m, o)
    {
      assert (o / BLOCK_SIZE) * BLOCK_SIZE < v.inodes[m].size;
    }
  }

  /** How many blocks a file of this size has. */
  function BlockCount(size: nat): nat {
    (size + BLOCK_SIZE - 1) / BLOCK_SIZE
  }

  /**
   * Reading needs every block below the size. A nonempty write keeps that exactly when its first block is
   * one the file has, or the next one; starting further out leaves a hole.
   */
  lemma WroteLeavesHole(v: Volume, v': Volume, n: nat, off: nat, data: seq<Byte>)
    requires Wrote(v, v', n, off, data) && data != []
    requires AllMapped(v, n) && NoneBeyond(v, n)
    ensures NoneBeyond(v', n)
    ensures AllMapped(v', n) <==> off / BLOCK_SIZE <= BlockCount(v.inodes[n].size)
  {
    var size, size' := v.inodes[n].size, v'.inodes[n].size;
    var count := BlockCount(size);
    if off / BLOCK_SIZE <= count {
      forall b: nat | b * BLOCK_SIZE < size'
        ensures BlockOf(v', n, b) != 0
      {
        if b * BLOCK_SIZE >= size {
          assert b >= count;
          assert Touched(off, |data|, b);
        }
      }
    } else {
      assert size <= count * BLOCK_SIZE < off;
      assert !Touched(off, |data|, count);
      assert BlockOf(v, n, count) == 0 && BlockOf(v', n, count) == 0;
    }
  }
}
