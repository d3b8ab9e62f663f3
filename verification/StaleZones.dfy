/** A run in which an index block is taken stale: a write into one file lands on the super block. */
module StaleZones {
  import opened Blocks
  import opened BlockTree
  import opened BlockMapping
  import opened Bytes
  import opened FileContents
  import opened FileRuns
  import opened FileWriting
  import opened FiniteSets
  import opened Options
  import opened Truncation

  const SUPER_BLOCK := 1

  function Zeros(): Block {
    seq(BLOCK_SIZE, _ => 0)
  }

  function BlockNumber(k: nat, z: Word, b: Block): Block {
    if k == z then b else Zeros()
  }

  /** A disk of zeros but for one block. */
  function DiskWith(z: Word, b: Block): (d: seq<Block>)
    ensures |d| == DISK_BLOCKS
  {
    seq(DISK_BLOCKS, (k: nat) => BlockNumber(k, z, b))
  }

  /** A volume of 100 blocks whose file 1 fills zones 5 to 11, its first seven blocks; file 2 has the given inode. */
  ghost function Disk100(second: Inode, disk: seq<Block>, used: set<nat>): Volume {
    Volume(map[1 := Inode(DIRECT_BLOCK * BLOCK_SIZE, [5, 6, 7, 8, 9, 10, 11, 0, 0]), 2 := second], disk, used, 5, 100)
  }

  ghost function Start(): Volume {
    Disk100(Inode(0, NoZones()), DiskWith(12, Zeros()), Interval(4, 12))
  }

  /** One byte has been written to file 2: zone 12 holds it. */
  ghost function Grown2(): Volume {
    Disk100(Inode(1, [12, 0, 0, 0, 0, 0, 0, 0, 0]), DiskWith(12, Splice(Zeros(), 0, [1])), Interval(4, 12) + {12})
  }

  /** File 2 has been truncated: zone 12 is free and keeps the byte. */
  ghost function Emptied2(): Volume {
    Disk100(Inode(0, NoZones()), DiskWith(12, Splice(Zeros(), 0, [1])), Interval(4, 12))
  }

  lemma LeastIs(s: set<nat>, z: nat)
    requires IsLeast(s, z)
    ensures Least(s) == z
  {}

  lemma Next(v: Volume)
    requires Shaped(v) && v.first == 5 && v.zones == 100 && v.used == Interval(4, 12)
    ensures FreeZones(v) != {} && NextFree(v) == 12
  {
    assert 12 in FreeZones(v);
    LeastIs(FreeZones(v), 12);
  }

  lemma {:induction false} StartZones(n: nat, p: Pos)
    requires n in Start().inodes
    ensures ZoneAt(Start(), n, p) == if n == 1 && p.Direct? then 5 + p.Place() else 0
    decreases p.Depth()
  {
    if !p.Root() {
      StartZones(n, p.Parent());
    }
  }

  /** The run starts from a volume with nothing wrong. */
  lemma StartIsSound()
    ensures Sound(Start()) && NoLeaks(Start()) && forall n | n in Start().inodes :: AllMapped(Start(), n)
  {
    var v := Start();
    forall n, p: Pos | n in v.inodes
      ensures ZoneAt(v, n, p) == if n == 1 && p.Direct? then 5 + p.Place() else 0
    {
      StartZones(n, p);
    }
    StartLeaksNothing();
    StartShareless();
  }

  lemma StartShareless()
    ensures Shaped(Start()) && Marked(Start()) && NoSharing(Start())
  {
    var v := Start();
    forall n, p: Pos, m, q: Pos | n in v.inodes && m in v.inodes && ZoneAt(v, n, p) == ZoneAt(v, m, q) != 0
      ensures n == m && p == q
    {
      StartZones(n, p);
      StartZones(m, q);
    }
    forall n, p: Pos | n in v.inodes && ZoneAt(v, n, p) != 0
      ensures ZoneAt(v, n, p) in v.used && v.first <= ZoneAt(v, n, p) < v.zones
    {
      StartZones(n, p);
    }
  }

  lemma StartLeaksNothing()
    ensures Shaped(Start()) && NoLeaks(Start())
  {
    var v := Start();
    forall z | z in v.used && z >= v.first
      ensures exists n, p: Pos :: n in v.inodes && ZoneAt(v, n, p) == z
    {
      StartZones(1, Direct(z - 5));
      assert ZoneAt(v, 1, Direct(z - 5)) == z;
    }
  }

  lemma FirstWrite()
    ensures Written(Start(), 2, 0, [1]) == Some(Grown2())
  {
    var v := Start();
    Next(v);
    assert PosOf(0) == Direct(0) && Filled(v, 2, Direct(0)) == Some(Attach(v, 2, Direct(0), 12));
    var w := PutChunk(Attach(v, 2, Direct(0), 12), 2, 0, 0, [1]);
    var data: seq<Byte> := [1];
    assert data[..ChunkLen(0, 1)] == data && data[ChunkLen(0, 1)..] == [];
    assert w.disk == Grown2().disk;
    assert w.inodes[2] == Grown2().inodes[2] && w.inodes == Grown2().inodes;
  }

  lemma {:induction false} SecondZones(p: Pos)
    ensures ZoneAt(Grown2(), 2, p) == if p == Direct(0) then 12 else 0
    decreases p.Depth()
  {
    if !p.Root() {
      SecondZones(p.Parent());
    }
  }

  lemma Truncation2()
    ensures Truncated(Grown2(), 2) == Emptied2() && Held(Grown2(), 2) == {12}
  {
    var v := Grown2();
    forall z: nat
      ensures z in Held(v, 2) <==> z == 12
    {
      SecondZones(Direct(0));
      if z in Held(v, 2) {
        var p: Pos :| ZoneAt(v, 2, p) == z;
        SecondZones(p);
      }
    }
    assert Truncated(v, 2).inodes == Emptied2().inodes;
    assert Truncated(v, 2).used == Emptied2().used;
  }

  lemma StaleEntry()
    ensures Entry(Splice(Zeros(), 0, [1]), 0) == SUPER_BLOCK
  {}

  /** File 1 grows by one block: zone 12 becomes its index block, and its first entry says 1. */
  lemma LastWrite() returns (w: Volume)
    ensures Written(Emptied2(), 1, DIRECT_BLOCK * BLOCK_SIZE, [9]) == Some(w) && Shaped(w) && !Sound(w)
    ensures Emptied2().disk[SUPER_BLOCK][0] == 0 && w.disk[SUPER_BLOCK][0] == 9
  {
    var v := Emptied2();
    Next(v);
    StaleEntry();
    var u := Attach(v, 1, Single, 12);
    assert u.disk[12] == Splice(Zeros(), 0, [1]);
    assert Filled(v, 1, Single) == Some(u) && ZoneAt(u, 1, Single) == 12;
    var p := SingleData(0);
    assert p.Parent() == Single && ZoneAt(u, 1, p) == SUPER_BLOCK;
    assert Filled(v, 1, p) == Some(u) && PosOf(DIRECT_BLOCK) == p;
    w := PutChunk(u, 1, DIRECT_BLOCK, 0, [9]);
    var at, data: seq<Byte> := DIRECT_BLOCK * BLOCK_SIZE, [9];
    assert data[..ChunkLen(at, 1)] == data && data[ChunkLen(at, 1)..] == [];
    assert w.disk[12] == u.disk[12] && ZoneAt(w, 1, p) == SUPER_BLOCK;
  }

  /**
   * From a sound volume: write one nonzero byte to one file, truncate that file, let another file grow past
   * its seventh block. The last write takes the freed zone as an index block and changes the super block.
   */
  lemma StaleRun() returns (w: Volume)
    ensures Sound(Start()) && NoLeaks(Start())
    ensures FileStep(Start(), Write(2, 0, [1]), Grown2()) && FileStep(Grown2(), Truncate(2), Emptied2())
    ensures Written(Emptied2(), 1, DIRECT_BLOCK * BLOCK_SIZE, [9]) == Some(w) && !Sound(w)
    ensures w.disk[SUPER_BLOCK] != Emptied2().disk[SUPER_BLOCK]
  {
    StartIsSound();
    FirstWrite();
    SmallWriteIsClean(Start(), 2, 0, [1]);
    Truncation2();
    w := LastWrite();
  }
}
