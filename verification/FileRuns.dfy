/** Runs of writes and truncations: every file is the flat byte sequence its operations make of it. */
module FileRuns {
  import opened Blocks
  import opened BlockTree
  import opened BlockMapping
  import opened Bytes
  import opened FileContents
  import opened FileWriting
  import opened Limits
  import opened Options
  import opened Truncation
  import Zones

  datatype FileOp = Write(n: nat, off: nat, data: seq<Byte>) | Truncate(n: nat)

  /**
   * A call that succeeds: a write that starts within the file, finds room and takes clean index blocks, or
   * a truncation of a file whose zones bfree can find.
   */
  ghost predicate FileStep(v: Volume, op: FileOp, v': Volume) {
    && Shaped(v) && 2 <= v.first && op.n in v.inodes
    && match op
       case Write(n, off, data) =>
         off <= v.inodes[n].size && CleanWrite(v, n, off, data) && Written(v, n, off, data) == Some(v')
       case Truncate(n) =>
         Zones.Findable(v.first, Held(v, n)) && v' == Truncated(v, n)
  }

  /** The same call on flat byte sequences. */
  function FlatStep(files: map<nat, seq<Byte>>, op: FileOp): map<nat, seq<Byte>> {
    match op
    case Write(n, off, data) =>
      if n in files && off <= |files[n]| then files[n := Overwrite(files[n], off, data)] else files
    case Truncate(n) => files[n := []]
  }

  function FlatFiles(files: map<nat, seq<Byte>>, ops: seq<FileOp>): map<nat, seq<Byte>> {
    if ops == [] then files else FlatStep(FlatFiles(files, ops[..|ops| - 1]), ops[|ops| - 1])
  }

  /** The zones are accounted for, every file has all its blocks, and its bytes are those of files. */
  ghost predicate Reads(v: Volume, files: map<nat, seq<Byte>>) {
    && Sound(v) && NoLeaks(v) && v.inodes.Keys == files.Keys
    && forall n | n in v.inodes :: AllMapped(v, n) && Contents(v, n) == files[n]
  }

  ghost predicate FileRun(vs: seq<Volume>, ops: seq<FileOp>) {
    |vs| == |ops| + 1 && forall i | 0 <= i < |ops| :: FileStep(vs[i], ops[i], vs[i + 1])
  }

  lemma StepReads(v: Volume, op: FileOp, v': Volume, files: map<nat, seq<Byte>>)
    requires Reads(v, files) && FileStep(v, op, v')
    ensures Reads(v', FlatStep(files, op))
  {
    hide NoSharing, Marked, NoLeaks, Wrote, CleanWrite, Written, Contents, Held;
    match op
    case Write(n, off, data) =>
      assert off <= |files[n]| by {
        assert Contents(v, n) == files[n] && |Contents(v, n)| == v.inodes[n].size by { ContentsLength(v, n); }
      }
      CleanWriteIsFlat(v, n, off, data);
    case Truncate(n) =>
      TruncatedKeeps(v, n);
      forall m | m in v.inodes
        ensures AllMapped(v', m)
      {
        TruncatedWhole(v, n, m);
      }
  }

  lemma ContentsLength(v: Volume, n: nat)
    requires Shaped(v) && n in v.inodes
    ensures |Contents(v, n)| == v.inodes[n].size
  {}

  lemma TruncatedWhole(v: Volume, n: nat, m: nat)
    requires Sound(v) && n in v.inodes && m in v.inodes && AllMapped(v, m)
    ensures Sound(Truncated(v, n)) && AllMapped(Truncated(v, n), m)
  {
    TruncatedKeeps(v, n);
    forall b: nat | b * BLOCK_SIZE < v.inodes[m].size && m != n
      ensures BlockOf(Truncated(v, n), m, b) != 0
    {
      assert BlockOf(v, m, b) != 0;
      TruncatedZones(v, n, m, PosOf(b));
    }
  }

  /** After any number of calls, every file reads as its flat reference, and no zone is lost or shared. */
  lemma {:induction false} RunReads(vs: seq<Volume>, ops: seq<FileOp>, files: map<nat, seq<Byte>>, k: nat)
    requires FileRun(vs, ops) && Reads(vs[0], files) && k <= |ops|
    ensures Reads(vs[k], FlatFiles(files, ops[..k]))
  {
    hide Reads, FileStep, FlatStep;
    if k > 0 {
      RunReads(vs, ops, files, k - 1);
      StepReads(vs[k - 1], ops[k - 1], vs[k], FlatFiles(files, ops[..k - 1]));
      assert ops[..k][..k - 1] == ops[..k - 1];
    }
  }

  // ---------- where a run can begin ----------

  /** The two entries of a fresh root directory, "." and "..", each naming inode 1 in two bytes. */
  function RootEntries(): (d: seq<Byte>)
    ensures |d| == 32
  {
    [1, 0, 46] + seq(13, _ => 0) + [1, 0, 46, 46] + seq(12, _ => 0)
  }

  /** A fresh volume: the root directory holds the first data zone with its two entries, every other file is empty. */
  ghost predicate Formatted(v: Volume) {
    && Shaped(v) && v.first < v.zones
    && ROOT in v.inodes && v.inodes[ROOT] == Inode(32, NoZones()[0 := v.first]) && v.disk[v.first][..32] == RootEntries()
    && (forall n | n in v.inodes && n != ROOT :: v.inodes[n] == Inode(0, NoZones()))
    && v.first in v.used && (forall z | z in v.used :: z <= v.first)
  }

  lemma {:induction false} EmptyInode(v: Volume, n: nat, p: Pos)
    requires Shaped(v) && n in v.inodes && v.inodes[n].zone == NoZones()
    ensures ZoneAt(v, n, p) == 0
    decreases p.Depth()
  {
    if !p.Root() {
      EmptyInode(v, n, p.Parent());
    }
  }

  lemma {:induction false} RootInode(v: Volume, p: Pos)
    requires Formatted(v)
    ensures ZoneAt(v, ROOT, p) == if p == Direct(0) then v.first else 0
    decreases p.Depth()
  {
    if !p.Root() {
      RootInode(v, p.Parent());
    }
  }

  lemma FormattedReads(v: Volume)
    requires Formatted(v)
    ensures Reads(v, map n | n in v.inodes :: if n == ROOT then RootEntries() else [])
  {
    forall n, p: Pos | n in v.inodes
      ensures ZoneAt(v, n, p) == if n == ROOT && p == Direct(0) then v.first else 0
    {
      if n == ROOT {
        RootInode(v, p);
      } else {
        EmptyInode(v, n, p);
      }
    }
    assert ZoneAt(v, ROOT, Direct(0)) == v.first;
    assert Contents(v, ROOT) == v.disk[v.first][..32];
  }

  // ---------- when writes are clean ----------

  /** The first seven blocks need no index block. */
  lemma {:induction false} SmallWriteIsClean(v: Volume, n: nat, off: nat, data: seq<Byte>)
    requires Shaped(v) && n in v.inodes && off + |data| <= DIRECT_BLOCK * BLOCK_SIZE
    ensures CleanWrite(v, n, off, data)
    decreases |data|
  {
    hide Shaped, WrittenChunk, Filled, BeforeFill;
    if data != [] {
      var w := WrittenChunk(v, n, off, data);
      if w.Some? {
        SmallWriteIsClean(w.value, n, off + ChunkLen(off, |data|), data[ChunkLen(off, |data|)..]);
      }
    }
  }

  /** Every free zone reads as zeros, as on a disk that was cleared before it was formatted. */
  ghost predicate FreeZero(v: Volume) {
    Shaped(v) && forall z | z in FreeZones(v) :: ZeroIndex(v.disk[z])
  }

  lemma {:induction false} ZeroFill(v: Volume, n: nat, p: Pos)
    requires Sound(v) && FreeZero(v) && n in v.inodes
    ensures CleanFill(v, n, p)
    ensures Filled(v, n, p).Some? ==> FreeZero(Filled(v, n, p).value)
    decreases p.Depth()
  {
    if !p.Root() {
      ZeroFill(v, n, p.Parent());
    }
    CleanFillKeeps(v, n, p);
    if Filled(v, n, p).Some? {
      var u, w := BeforeFill(v, n, p).value, Filled(v, n, p).value;
      if !p.Root() {
        CleanFillKeeps(v, n, p.Parent());
        FilledHolds(v, n, p);
      }
      forall z | z in FreeZones(w)
        ensures ZeroIndex(w.disk[z])
      {
        assert z in FreeZones(u);
      }
    }
  }

  /** Then every write is clean, and the free zones left over still read as zeros. */
  lemma {:induction false} ZeroWrite(v: Volume, n: nat, at: nat, data: seq<Byte>)
    requires Sound(v) && FreeZero(v) && n in v.inodes
    ensures CleanWrite(v, n, at, data)
    ensures Written(v, n, at, data).Some? ==> FreeZero(Written(v, n, at, data).value)
    decreases |data|
  {
    hide NoSharing, Marked, CleanFill, Filled, MappedOne, Chunked, FreeZero, WrittenChunk;
    if data != [] {
      ChunkInRange(v, n, at, data);
      if at / BLOCK_SIZE < TOTAL_BLOCK {
        ZeroFill(v, n, PosOf(at / BLOCK_SIZE));
      }
      if WrittenChunk(v, n, at, data).Some? {
        var w := ChunkWritten(v, n, at, data);
        ZeroChunk(v, n, at, data);
        ZeroWrite(WrittenChunk(v, n, at, data).value, n, at + ChunkLen(at, |data|), data[ChunkLen(at, |data|)..]);
      }
    }
  }

  lemma ZeroChunk(v: Volume, n: nat, at: nat, data: seq<Byte>)
    requires Sound(v) && FreeZero(v) && n in v.inodes && data != [] && WrittenChunk(v, n, at, data).Some?
    ensures FreeZero(WrittenChunk(v, n, at, data).value)
  {
    var p := PosOf(at / BLOCK_SIZE);
    ZeroFill(v, n, p);
    CleanFillKeeps(v, n, p);
    FilledHolds(v, n, p);
    var u, w := Filled(v, n, p).value, WrittenChunk(v, n, at, data).value;
    forall z | z in FreeZones(w)
      ensures ZeroIndex(w.disk[z])
    {
      assert z in FreeZones(u);
    }
  }
}
