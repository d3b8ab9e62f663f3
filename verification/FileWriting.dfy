/** Writing a whole buffer into a file, chunk by chunk, as a function of the volume before. */
module FileWriting {
  import opened Blocks
  import opened BlockTree
  import opened BlockMapping
  import opened Bytes
  import opened FileContents
  import opened Limits
  import opened Options

  /** How many bytes the turn at offset at handles when left bytes are to go: up to the end of the block. */
  function ChunkLen(at: nat, left: nat): (chars: nat)
    ensures left > 0 ==> 0 < chars <= left && at % BLOCK_SIZE + chars <= BLOCK_SIZE
    ensures chars < left ==> (at + chars) % BLOCK_SIZE == 0 && (at + chars) / BLOCK_SIZE == at / BLOCK_SIZE + 1
  {
    Min(BLOCK_SIZE - at % BLOCK_SIZE, left)
  }

  /** One turn of the write loop: map the block, then copy what fits into it. */
  ghost function WrittenChunk(v: Volume, n: nat, at: nat, data: seq<Byte>): (r: Option<Volume>)
    requires Shaped(v) && n in v.inodes && data != []
    ensures r.Some? ==> Shaped(r.value) && r.value.inodes.Keys == v.inodes.Keys
  {
    if at / BLOCK_SIZE >= TOTAL_BLOCK then None
    else
      match Filled(v, n, PosOf(at / BLOCK_SIZE))
      case None => None
      case Some(w) => Some(PutChunk(w, n, at / BLOCK_SIZE, at % BLOCK_SIZE, data[..ChunkLen(at, |data|)]))
  }

  /** The volume after data has been written into file n at offset at. None: some block cannot be mapped. */
  ghost function Written(v: Volume, n: nat, at: nat, data: seq<Byte>): (r: Option<Volume>)
    requires Shaped(v) && n in v.inodes
    ensures r.Some? ==> Shaped(r.value) && r.value.inodes.Keys == v.inodes.Keys
    decreases |data|
  {
    if data == [] then Some(v)
    else
      match WrittenChunk(v, n, at, data)
      case None => None
      case Some(w) => Written(w, n, at + ChunkLen(at, |data|), data[ChunkLen(at, |data|)..])
  }

  lemma WrittenByTurns(v: Volume, n: nat, at: nat, data: seq<Byte>)
    requires Shaped(v) && n in v.inodes
    ensures data == [] ==> Written(v, n, at, data) == Some(v)
    ensures data != [] ==>
              Written(v, n, at, data) ==
              match WrittenChunk(v, n, at, data)
              case None => None
              case Some(w) => Written(w, n, at + ChunkLen(at, |data|), data[ChunkLen(at, |data|)..])
  {}

  /** Every zone that the write takes as an index block reads as zeros when it is taken. */
  ghost predicate CleanWrite(v: Volume, n: nat, at: nat, data: seq<Byte>)
    requires Shaped(v) && n in v.inodes
    decreases |data|
  {
    data != [] && at / BLOCK_SIZE < TOTAL_BLOCK ==>
      && CleanFill(v, n, PosOf(at / BLOCK_SIZE))
      && match WrittenChunk(v, n, at, data)
         case None => true
         case Some(w) => CleanWrite(w, n, at + ChunkLen(at, |data|), data[ChunkLen(at, |data|)..])
  }

  lemma PutChunkKeepsNoLeaks(v: Volume, n: nat, b: nat, start: nat, chunk: seq<Byte>)
    requires Sound(v) && NoLeaks(v) && n in v.inodes && b < TOTAL_BLOCK
    requires start + |chunk| <= BLOCK_SIZE && BlockOf(v, n, b) != 0
    ensures Shaped(PutChunk(v, n, b, start, chunk)) && NoLeaks(PutChunk(v, n, b, start, chunk))
  {
    var v' := PutChunk(v, n, b, start, chunk);
    PutChunkZones(v, n, b, start, chunk, n, Single);
    forall z | z in v'.used && z >= v'.first
      ensures exists m, q: Pos :: m in v'.inodes && ZoneAt(v', m, q) == z
    {
      var m, q: Pos :| m in v.inodes && ZoneAt(v, m, q) == z;
      PutChunkZones(v, n, b, start, chunk, m, q);
      assert ZoneAt(v', m, q) == z;
    }
  }

  /** What one turn does to every file. */
  lemma ChunkWritten(v: Volume, n: nat, at: nat, data: seq<Byte>) returns (w: Volume)
    requires Sound(v) && n in v.inodes && data != [] && at / BLOCK_SIZE < TOTAL_BLOCK
    requires CleanFill(v, n, PosOf(at / BLOCK_SIZE)) && WrittenChunk(v, n, at, data).Some?
    ensures MappedOne(v, w, n, at / BLOCK_SIZE)
    ensures Chunked(w, WrittenChunk(v, n, at, data).value, n, at, data[..ChunkLen(at, |data|)])
    ensures Sound(WrittenChunk(v, n, at, data).value)
    ensures NoLeaks(v) ==> NoLeaks(WrittenChunk(v, n, at, data).value)
  {
    hide NoSharing, Marked, NoLeaks, Grown, MappedOne, Chunked;
    var b := at / BLOCK_SIZE;
    var chunk := data[..ChunkLen(at, |data|)];
    w := Filled(v, n, PosOf(b)).value;
    FilledHolds(v, n, PosOf(b));
    CleanFillKeeps(v, n, PosOf(b));
    GrownMapsOne(v, w, n, b);
    PutChunkKeepsSound(w, n, b, at % BLOCK_SIZE, chunk);
    PutChunkIsChunked(w, n, b, at % BLOCK_SIZE, chunk);
    if NoLeaks(v) {
      PutChunkKeepsNoLeaks(w, n, b, at % BLOCK_SIZE, chunk);
    }
  }

  /** A write of no bytes changes nothing, wherever it is. */
  ghost predicate WroteOrEmpty(v: Volume, v': Volume, n: nat, off: nat, data: seq<Byte>) {
    if data == [] then v' == v else Wrote(v, v', n, off, data)
  }

  /** Going on from what has been written so far. */
  lemma {:induction false} WritesOn(v0: Volume, v: Volume, n: nat, off: nat, done: seq<Byte>, rest: seq<Byte>)
    requires Sound(v) && n in v.inodes && WroteOrEmpty(v0, v, n, off, done)
    requires done == [] || rest == [] || (off + |done|) % BLOCK_SIZE == 0
    requires CleanWrite(v, n, off + |done|, rest) && Written(v, n, off + |done|, rest).Some?
    ensures var w := Written(v, n, off + |done|, rest).value;
            Sound(w) && WroteOrEmpty(v0, w, n, off, done + rest) && (NoLeaks(v) ==> NoLeaks(w))
    decreases |rest|
  {
    hide NoSharing, Marked, NoLeaks, WroteOrEmpty, CleanFill, WrittenChunk, ChunkLen, Written, CleanWrite;
    FirstTurn(v, n, off + |done|, rest);
    if rest == [] {
      assert done + rest == done;
    } else {
      var k := ChunkLen(off + |done|, |rest|);
      WritesOneMore(v0, v, n, off, done, rest);
      assert off + |done + rest[..k]| == off + |done| + k;
      WritesOn(v0, WrittenChunk(v, n, off + |done|, rest).value, n, off, done + rest[..k], rest[k..]);
      assert (done + rest[..k]) + rest[k..] == done + rest;
    }
  }

  /** A write is its first turn and the write of the rest. */
  lemma FirstTurn(v: Volume, n: nat, at: nat, data: seq<Byte>)
    requires Shaped(v) && n in v.inodes && CleanWrite(v, n, at, data) && Written(v, n, at, data).Some?
    ensures data == [] ==> Written(v, n, at, data).value == v
    ensures data != [] ==>
              && at / BLOCK_SIZE < TOTAL_BLOCK && CleanFill(v, n, PosOf(at / BLOCK_SIZE)) && WrittenChunk(v, n, at, data).Some?
              && var (w, k) := (WrittenChunk(v, n, at, data).value, ChunkLen(at, |data|));
                 CleanWrite(w, n, at + k, data[k..]) && Written(w, n, at + k, data[k..]) == Written(v, n, at, data)
  {
    hide WrittenChunk, CleanFill, Filled, BeforeFill, Shaped;
    if data != [] {
      ChunkInRange(v, n, at, data);
    }
  }

  lemma ChunkInRange(v: Volume, n: nat, at: nat, data: seq<Byte>)
    requires Shaped(v) && n in v.inodes && data != []
    ensures WrittenChunk(v, n, at, data).Some? ==> at / BLOCK_SIZE < TOTAL_BLOCK
  {}

  lemma WritesOneMore(v0: Volume, v: Volume, n: nat, off: nat, done: seq<Byte>, rest: seq<Byte>)
    requires Sound(v) && n in v.inodes && WroteOrEmpty(v0, v, n, off, done) && rest != []
    requires done == [] || (off + |done|) % BLOCK_SIZE == 0
    requires (off + |done|) / BLOCK_SIZE < TOTAL_BLOCK && CleanFill(v, n, PosOf((off + |done|) / BLOCK_SIZE))
    requires WrittenChunk(v, n, off + |done|, rest).Some?
    ensures var v' := WrittenChunk(v, n, off + |done|, rest).value;
            Sound(v') && (NoLeaks(v) ==> NoLeaks(v'))
            && WroteOrEmpty(v0, v', n, off, done + rest[..ChunkLen(off + |done|, |rest|)])
  {
    hide NoSharing, Marked, NoLeaks, Wrote, MappedOne, Chunked, CleanFill, WrittenChunk;
    var at := off + |done|;
    var w := ChunkWritten(v, n, at, rest);
    if done == [] {
      WroteNothing(v, w, n, off);
    }
    WroteOneMore(v0, v, w, WrittenChunk(v, n, at, rest).value, n, off, done, rest[..ChunkLen(at, |rest|)]);
  }

  lemma WroteNothing(v: Volume, v': Volume, n: nat, off: nat)
    requires MappedOne(v, v', n, off / BLOCK_SIZE)
    ensures Wrote(v, v, n, off, [])
  {}

  /** The flat view of a write: the file is overwritten and extended, and every other file is as it was. */
  ghost predicate FlatWrite(v: Volume, v': Volume, n: nat, off: nat, data: seq<Byte>) {
    && Shaped(v) && Shaped(v') && n in v.inodes && v'.inodes.Keys == v.inodes.Keys
    && (AllMapped(v, n) && off <= v.inodes[n].size ==>
          AllMapped(v', n) && Contents(v', n) == Overwrite(Contents(v, n), off, data))
    && (forall m | m in v.inodes && m != n && AllMapped(v, m) :: AllMapped(v', m) && Contents(v', m) == Contents(v, m))
  }

  lemma WroteIsFlat(v: Volume, v': Volume, n: nat, off: nat, data: seq<Byte>)
    requires Shaped(v) && n in v.inodes && WroteOrEmpty(v, v', n, off, data)
    ensures FlatWrite(v, v', n, off, data)
  {
    if data == [] {
      assert off <= v.inodes[n].size ==> Overwrite(Contents(v, n), off, []) == Contents(v, n);
    } else {
      if AllMapped(v, n) && off <= v.inodes[n].size {
        WroteIsOverwrite(v, v', n, off, data);
      }
      forall m | m in v.inodes && m != n && AllMapped(v, m)
        ensures AllMapped(v', m) && Contents(v', m) == Contents(v, m)
      {
        WroteKeepsOthers(v, v', n, off, data, m);
      }
    }
  }

  /** A write that takes clean index blocks overwrites the file's bytes, touches no other file, and keeps zones accounted for. */
  lemma CleanWriteIsFlat(v: Volume, n: nat, off: nat, data: seq<Byte>)
    requires Sound(v) && n in v.inodes && CleanWrite(v, n, off, data) && Written(v, n, off, data).Some?
    ensures var w := Written(v, n, off, data).value;
            && Sound(w) && (NoLeaks(v) ==> NoLeaks(w))
            && WroteOrEmpty(v, w, n, off, data) && FlatWrite(v, w, n, off, data)
  {
    hide NoSharing, Marked, NoLeaks, Wrote, FlatWrite, CleanWrite, Written;
    assert [] + data == data;
    WritesOn(v, v, n, off, [], data);
    WroteIsFlat(v, Written(v, n, off, data).value, n, off, data);
  }

  // ---------- exactly when there is room ----------

  /** Every slot on the way to some block of the bytes at .. at+len-1. */
  ghost function Paths(at: nat, len: nat): set<Pos>
    requires len == 0 || at + len <= MAX_SIZE
    decreases len
  {
    if len == 0 then {}
    else Path(PosOf(at / BLOCK_SIZE)) + Paths(at + ChunkLen(at, len), len - ChunkLen(at, len))
  }

  lemma ChunkBalance(v: Volume, n: nat, at: nat, data: seq<Byte>, s: set<Pos>)
    requires Sound(v) && n in v.inodes && data != [] && at / BLOCK_SIZE < TOTAL_BLOCK
    requires CleanFill(v, n, PosOf(at / BLOCK_SIZE)) && Path(PosOf(at / BLOCK_SIZE)) <= s
    ensures match WrittenChunk(v, n, at, data)
            case None => Shortage(v, n, s) > 0
            case Some(w) => Sound(w) && Shortage(w, n, s) == Shortage(v, n, s) && Missing(w, n, s) <= Missing(v, n, s)
                            && Missing(w, n, Path(PosOf(at / BLOCK_SIZE))) == {}
  {
    hide NoSharing, Marked, Path, Missing, FreeZones;
    var b, chunk := at / BLOCK_SIZE, data[..ChunkLen(at, |data|)];
    FillBalance(v, n, PosOf(b), s);
    match Filled(v, n, PosOf(b))
    case None =>
    case Some(u) =>
      FilledHolds(v, n, PosOf(b));
      CleanFillKeeps(v, n, PosOf(b));
      PutChunkKeepsSound(u, n, b, at % BLOCK_SIZE, chunk);
      PutChunkMissing(u, n, b, at % BLOCK_SIZE, chunk, s);
      PutChunkMissing(u, n, b, at % BLOCK_SIZE, chunk, Path(PosOf(b)));
  }

  lemma PutChunkMissing(v: Volume, n: nat, b: nat, start: nat, chunk: seq<Byte>, s: set<Pos>)
    requires Sound(v) && n in v.inodes && b < TOTAL_BLOCK && start + |chunk| <= BLOCK_SIZE && BlockOf(v, n, b) != 0
    ensures Shaped(PutChunk(v, n, b, start, chunk))
    ensures Missing(PutChunk(v, n, b, start, chunk), n, s) == Missing(v, n, s)
    ensures FreeZones(PutChunk(v, n, b, start, chunk)) == FreeZones(v)
  {
    PutChunkZones(v, n, b, start, chunk, n, Single);
    forall q: Pos
      ensures ZoneAt(PutChunk(v, n, b, start, chunk), n, q) == ZoneAt(v, n, q)
    {
      PutChunkZones(v, n, b, start, chunk, n, q);
    }
  }

  lemma {:induction false} WriteBalance(v: Volume, n: nat, at: nat, data: seq<Byte>, s: set<Pos>)
    requires Sound(v) && n in v.inodes && CleanWrite(v, n, at, data)
    requires data == [] || at + |data| <= MAX_SIZE
    requires Paths(at, |data|) <= s
    ensures match Written(v, n, at, data)
            case None => Shortage(v, n, s) > 0
            case Some(w) => Shortage(w, n, s) == Shortage(v, n, s) && Missing(w, n, s) <= Missing(v, n, s)
                            && Missing(w, n, Paths(at, |data|)) == {}
    decreases |data|
  {
    hide NoSharing, Marked, Path, WrittenChunk, Shortage;
    if data != [] {
      var k := ChunkLen(at, |data|);
      ChunkBalance(v, n, at, data, s);
      match WrittenChunk(v, n, at, data)
      case None =>
      case Some(w) =>
        WriteBalance(w, n, at + k, data[k..], s);
        if Written(v, n, at, data).Some? {
          MissingShrinks(w, Written(v, n, at, data).value, n, Path(PosOf(at / BLOCK_SIZE)), s);
        }
    }
  }

  lemma MissingShrinks(v: Volume, w: Volume, n: nat, a: set<Pos>, s: set<Pos>)
    requires Shaped(v) && Shaped(w) && n in v.inodes && n in w.inodes && a <= s
    requires Missing(w, n, s) <= Missing(v, n, s) && Missing(v, n, a) == {}
    ensures Missing(w, n, a) == {}
  {
    forall q | q in a
      ensures ZoneAt(w, n, q) != 0
    {
      assert q !in Missing(v, n, a) && q !in Missing(w, n, s);
    }
  }

  /** A clean write works exactly when it ends within the largest size and each empty slot on its paths has a free zone. */
  lemma WriteSucceeds(v: Volume, n: nat, off: nat, data: seq<Byte>)
    requires Sound(v) && n in v.inodes && CleanWrite(v, n, off, data) && data != []
    ensures Written(v, n, off, data).Some? <==>
              off + |data| <= MAX_SIZE && |Missing(v, n, Paths(off, |data|))| <= |FreeZones(v)|
  {
    hide NoSharing, Marked, Wrote, CleanWrite, Written, FlatWrite;
    if Written(v, n, off, data).Some? {
      CleanWriteIsFlat(v, n, off, data);
      WroteEndsInTime(v, Written(v, n, off, data).value, n, off, data);
    }
    if off + |data| <= MAX_SIZE {
      WriteBalance(v, n, off, data, Paths(off, |data|));
    }
  }

  lemma WroteEndsInTime(v: Volume, v': Volume, n: nat, off: nat, data: seq<Byte>)
    requires Wrote(v, v', n, off, data)
    ensures off + |data| <= MAX_SIZE
  {}
}
