/** The zone bitmap of a volume: allocating and freeing zones, and the bitmap a fresh file system starts with. */
module Zones {
  import opened Bitmaps
  import opened Blocks
  import opened FiniteSets
  import opened Limits

  const ZMAP_NR := 8

  /** Outcome of asking for a zone. Panic stands for a failed kernel assertion. */
  datatype Alloc = Zone(nr: nat) | NoSpace | Panic

  /** The bitmap block in which balloc keeps zone z, given the number of the first data zone. */
  function HomeBlock(first: nat, z: nat): nat
    requires 2 <= first <= z + 1
  {
    (z - (first - 1)) / BLOCK_BITS
  }

  /** The search never stops too early, and it stops at the home block exactly when z <= BLOCK_BITS * (home + 1). */
  lemma SearchFindsHome(first: nat, z: nat)
    requires 2 <= first <= z + 1
    ensures HomeBlock(first, z) <= SearchBlock(z)
    ensures SearchBlock(z) == HomeBlock(first, z) <==> z <= BLOCK_BITS * (HomeBlock(first, z) + 1)
  {
    var s := HomeBlock(first, z);
    assert BLOCK_BITS * s <= z - (first - 1) < BLOCK_BITS * (s + 1);
    assert z >= 1;
    assert BLOCK_BITS * SearchBlock(z) <= z - 1 < BLOCK_BITS * (SearchBlock(z) + 1);
  }

  /**
   * On a volume as mkfs lays it out, bfree looks for every data zone where balloc keeps it exactly when there
   * are at most 8193 blocks: beyond that, zone 8193 has its bit in block 0 and is looked for in block 1.
   */
  lemma SearchFindsEvery(total: nat, icount: nat)
    requires icount < total < 0x1_0000
    requires MkfsLayout(total, icount).zcount > 0
    ensures var first := MkfsLayout(total, icount).firstDataZone;
            total <= BLOCK_BITS + 1 <==>
            forall z: nat | first <= z < total :: SearchBlock(z) == HomeBlock(first, z)
  {
    var first := MkfsLayout(total, icount).firstDataZone;
    if total <= BLOCK_BITS + 1 {
      forall z: nat | first <= z < total
        ensures SearchBlock(z) == HomeBlock(first, z)
      {
        SearchFindsHome(first, z);
      }
    } else {
      SearchFindsHome(first, BLOCK_BITS + 1);
    }
  }

  /** A volume of 15104 blocks, the size of the master partition that the repository builds: balloc marks zone 8193 in block 0, bfree tests a bit of block 1. */
  lemma SearchMisses()
    ensures var first := MkfsLayout(15104, 0).firstDataZone;
            first <= 8193 < 15104 && HomeBlock(first, 8193) == 0 && SearchBlock(8193) == 1
  {}

  /** bfree looks for each of these zones where balloc keeps it. */
  ghost predicate Findable(first: nat, s: set<nat>)
    requires 2 <= first
  {
    forall z | z in s && z >= first :: SearchBlock(z) == HomeBlock(first, z)
  }

  /** The in-memory super block: volume size, first data zone and the loaded zone-bitmap blocks. */
  class SuperBlock {
    const zones: nat
    const firstDataZone: nat
    const zmaps: seq<array<bv8>>

    constructor (zones: nat, firstDataZone: nat, zmaps: seq<array<bv8>>)
      ensures this.zones == zones && this.firstDataZone == firstDataZone && this.zmaps == zmaps
    {
      this.zones := zones;
      this.firstDataZone := firstDataZone;
      this.zmaps := zmaps;
    }

    ghost predicate Valid() {
      && zones < 0x1_0000
      && 2 <= firstDataZone
      && 1 <= |zmaps| <= ZMAP_NR
      && (forall i | 0 <= i < |zmaps| :: zmaps[i].Length == BLOCK_SIZE)
      && (forall i, j | 0 <= i < j < |zmaps| :: zmaps[i] != zmaps[j])
    }

    /** Zone z has a bit in the bitmap. */
    predicate HasBit(z: nat) {
      firstDataZone - 1 <= z < firstDataZone - 1 + BLOCK_BITS * |zmaps|
    }

    /** Zone z has a bit and it is set. */
    ghost predicate Marked(z: nat)
      requires Valid()
      reads zmaps
    {
      && HasBit(z)
      && var k := z - (firstDataZone - 1);
         Bit(zmaps[k / BLOCK_BITS][..], k % BLOCK_BITS)
    }

    /** Bit k of bitmap block i, counted within bytes from the lowest bit up, stands for zone firstDataZone - 1 + 8192 * i + k. */
    lemma BitOfZone(i: nat, k: nat)
      requires Valid() && i < |zmaps| && k < 8192
      ensures Marked(firstDataZone - 1 + 8192 * i + k) <==> zmaps[i][k / 8] & (1 << (k % 8)) != 0
    {
      assert (8192 * i + k) / BLOCK_BITS == i && (8192 * i + k) % BLOCK_BITS == k;
      MaskIsShift(k % 8);
    }

    /** Every zone of bitmap block i is marked. */
    ghost predicate BlockFull(i: nat)
      requires Valid() && i < |zmaps|
      reads zmaps
    {
      forall k: nat | k < BLOCK_BITS :: Bit(zmaps[i][..], k)
    }

    /** Every zone kept in the first n bitmap blocks is marked. */
    ghost predicate FullBelow(n: nat)
      requires Valid() && n <= |zmaps|
      reads zmaps
    {
      forall z: nat | HasBit(z) && z < firstDataZone - 1 + BLOCK_BITS * n :: Marked(z)
    }

    lemma ExtendFull(n: nat)
      requires Valid() && n < |zmaps|
      requires FullBelow(n) && BlockFull(n)
      ensures FullBelow(n + 1)
    {
      forall z: nat | HasBit(z) && firstDataZone - 1 + BLOCK_BITS * n <= z < firstDataZone - 1 + BLOCK_BITS * (n + 1)
        ensures Marked(z)
      {
        assert (z - (firstDataZone - 1)) / BLOCK_BITS == n;
      }
    }

    /** One turn of the allocation loop: first fit inside bitmap block i. */
    method ScanBlock(i: nat) returns (bit: int)
      requires Valid() && i < |zmaps|
      modifies zmaps[i]
      ensures bit == EOF ==> BlockFull(i) && zmaps[i][..] == old(zmaps[i][..])
      ensures bit != EOF ==>
                var k := bit - (i * BLOCK_BITS + firstDataZone - 1);
                && 0 <= k < BLOCK_BITS
                && !old(Bit(zmaps[i][..], k))
                && (forall s: nat | s < k :: old(Bit(zmaps[i][..], s)))
                && (forall s: nat | s < BLOCK_BITS :: Bit(zmaps[i][..], s) == (old(Bit(zmaps[i][..], s)) || s == k))
    {
      var bitmap := new Bitmap(zmaps[i], BLOCK_SIZE, i * BLOCK_BITS + firstDataZone - 1);
      ghost var before := zmaps[i][..];
      assert before == bitmap.Contents();
      bit := bitmap.Scan(1);
      assert bitmap.Contents() == zmaps[i][..];
      if bit != EOF {
        ghost var k := bit - bitmap.offset;
        assert FreeRun(before, k, 1) && !Bit(before, k);
        forall s: nat | s < k
          ensures Bit(before, s)
        {
          assert !FreeRun(before, s, 1);
        }
      } else {
        forall s: nat | s < BLOCK_BITS
          ensures Bit(before, s)
        {
          assert !FreeRun(before, s, 1);
        }
      }
    }

    /** The same turn, in terms of zones. */
    method TakeFrom(i: nat) returns (bit: int)
      requires Valid() && i < |zmaps| && FullBelow(i)
      modifies zmaps[i]
      ensures bit == EOF ==> FullBelow(i + 1)
      ensures bit == EOF ==> forall z: nat :: Marked(z) == old(Marked(z))
      ensures bit != EOF ==> bit > 0 && HasBit(bit) && !old(Marked(bit))
      ensures bit != EOF ==> forall z: nat | HasBit(z) && z < bit :: old(Marked(z))
      ensures bit != EOF ==> forall z: nat :: Marked(z) <==> old(Marked(z)) || z == bit
    {
      bit := ScanBlock(i);
      if bit == EOF {
        ExtendFull(i);
        return;
      }
      forall z: nat | HasBit(z) && firstDataZone - 1 + BLOCK_BITS * i <= z < bit
        ensures old(Marked(z))
      {
        assert (z - (firstDataZone - 1)) / BLOCK_BITS == i;
      }
    }

    /** First-fit allocation over the bitmap blocks. */
    method Balloc() returns (r: Alloc)
      requires Valid()
      modifies zmaps
      ensures r.Zone? ==> HasBit(r.nr) && !old(Marked(r.nr)) && r.nr < zones
      ensures r.Zone? ==> forall z: nat | HasBit(z) && z < r.nr :: old(Marked(z))
      ensures r.Zone? ==> forall z: nat :: Marked(z) <==> old(Marked(z)) || z == r.nr
      ensures r.Zone? ==> ZoneStep(firstDataZone, BLOCK_BITS * |zmaps|, zones, old(MarkedSet()), Took(r.nr), MarkedSet())
      ensures !r.Zone? ==> forall z: nat | HasBit(z) && z < zones :: old(Marked(z))
      ensures r.NoSpace? ==> |zmaps| == ZMAP_NR && forall z: nat | HasBit(z) :: old(Marked(z))
    {
      var i := 0;
      while i < ZMAP_NR
        invariant 0 <= i <= ZMAP_NR && i <= |zmaps|
        invariant forall z: nat :: Marked(z) == old(Marked(z))
        invariant FullBelow(i)
      {
        if i >= |zmaps| {
          return Panic;
        }
        var bit := TakeFrom(i);
        if bit != EOF {
          if bit >= zones {
            return Panic;
          }
          return Zone(bit);
        }
        i := i + 1;
      }
      return NoSpace;
    }

    /** Free zone idx. False stands for a failed kernel assertion; nothing has changed then. */
    method Bfree(idx: nat) returns (ok: bool)
      requires Valid()
      modifies zmaps
      ensures ok <==> idx < zones && old(Marked(idx)) && SearchBlock(idx) == HomeBlock(firstDataZone, idx)
      ensures forall z: nat :: Marked(z) <==> old(Marked(z)) && !(ok && z == idx)
      ensures ok ==> ZoneStep(firstDataZone, BLOCK_BITS * |zmaps|, zones, old(MarkedSet()), Freed(idx), MarkedSet())
    {
      if idx >= zones {
        return false;
      }
      var i := 0;
      while i < ZMAP_NR
        invariant 0 <= i <= ZMAP_NR
        invariant i == 0 || idx > BLOCK_BITS * i
        invariant forall k | 0 <= k < |zmaps| :: zmaps[k][..] == old(zmaps[k][..])
      {
        if idx > BLOCK_BITS * (i + 1) {
          i := i + 1;
          continue;
        }
        assert SearchBlock(idx) == i;
        if i >= |zmaps| {
          return false;
        }
        ok := ClearInBlock(i, idx);
        return;
      }
      assert false;
    }

    /** The body of the freeing loop once a bitmap block is chosen: test the bit, then clear it. */
    method ClearInBlock(i: nat, idx: nat) returns (ok: bool)
      requires Valid() && i < |zmaps|
      modifies zmaps[i]
      ensures ok <==> idx >= firstDataZone - 1 && HomeBlock(firstDataZone, idx) == i && old(Marked(idx))
      ensures forall z: nat :: Marked(z) <==> old(Marked(z)) && !(ok && z == idx)
    {
      var bitmap := new Bitmap(zmaps[i], BLOCK_SIZE, BLOCK_BITS * i + firstDataZone - 1);
      if !(bitmap.offset <= idx < bitmap.offset + 8 * bitmap.length) {
        return false;
      }
      assert bitmap.Contents() == zmaps[i][..];
      var taken := bitmap.Test(idx);
      if !taken {
        return false;
      }
      ghost var before := zmaps[i][..];
      bitmap.Set(idx, false);
      assert bitmap.Contents() == zmaps[i][..];
      assert OneBitChanged(before, zmaps[i][..], idx - bitmap.offset, false);
      ok := true;
    }

    /** The zones whose bit is set. */
    ghost function MarkedSet(): set<nat>
      requires Valid()
      reads zmaps
    {
      set z: nat | z < firstDataZone - 1 + BLOCK_BITS * |zmaps| && Marked(z)
    }
  }

  // ---------- making a file system ----------

  const INODE_SIZE := 32

  datatype Layout = Layout(inodes: nat, imapBlocks: nat, inodeBlocks: nat, zcount: int, zmapBlocks: int, firstDataZone: int)

  function DivRoundUp(a: int, b: int): int
    requires b > 0
  {
    (a + b - 1) / b
  }

  /** How a volume of total blocks is divided; icount is the number of inodes asked for, 0 for the default. */
  function MkfsLayout(total: nat, icount: nat): Layout {
    var inodes := if icount == 0 then total / 3 else icount;
    var inodeBlocks := DivRoundUp(inodes * INODE_SIZE, BLOCK_SIZE);
    var imapBlocks := DivRoundUp(inodes, BLOCK_BITS);
    var zcount := total - imapBlocks - inodeBlocks - 2;
    var zmapBlocks := DivRoundUp(zcount, BLOCK_BITS);
    Layout(inodes, imapBlocks, inodeBlocks, zcount, zmapBlocks, 2 + imapBlocks + zmapBlocks + inodeBlocks)
  }

  /** The parts of a volume lie one behind the other, each just big enough: boot block, super block, bitmaps, inodes, data zones. */
  lemma LayoutFits(total: nat, icount: nat)
    requires icount < total < 0x1_0000 && MkfsLayout(total, icount).zcount > 0
    ensures var l := MkfsLayout(total, icount);
            && (icount > 0 ==> l.inodes == icount) && (icount == 0 ==> 3 * l.inodes <= total < 3 * l.inodes + 3)
            && l.inodes <= 8192 * l.imapBlocks < l.inodes + 8192
            && 32 * l.inodes <= 1024 * l.inodeBlocks < 32 * l.inodes + 1024
            && l.zcount <= 8192 * l.zmapBlocks < l.zcount + 8192
            && l.firstDataZone == 2 + l.imapBlocks + l.zmapBlocks + l.inodeBlocks
            && total == 2 + l.imapBlocks + l.inodeBlocks + l.zcount
  {}

  /** Mark the bits of a bitmap block from count on, in whole bytes and one partial byte. */
  method MarkTail(block: array<bv8>, count: nat)
    requires block.Length == BLOCK_SIZE
    modifies block
    ensures forall k: nat | k < BLOCK_BITS ::
              Bit(block[..], k) == TailBit(count % BLOCK_BITS, k, old(Bit(block[..], k)))
  {
    var offset := count % BLOCK_BITS;
    var begin := offset / 8;
    forall k | begin < k < BLOCK_SIZE {
      block[k] := 0xFF;
    }
    ghost var filled := block[..];
    var bits: bv8 := 0x80;
    var data: bv8 := 0;
    var remain := 8 - offset % 8;
    ghost var done := 0;
    while remain > 0
      invariant 0 <= remain && done + remain == 8 - offset % 8
      invariant done < 8 ==> bits == Mask(7 - done)
      invariant forall k: nat | k < 8 :: ByteBit(data, k) <==> k >= 8 - done
      invariant block[..] == filled
    {
      remain := remain - 1;
      SetHighBit(data, bits, done, data | bits);
      data := data | bits;
      bits := bits >> 1;
      done := done + 1;
    }
    block[begin] := data;
    AllOnes();
    assert block[..] == filled[begin := data];
  }

  /** What the marking leaves at bit k: whole bytes below the offset survive, everything else is decided by the offset. */
  predicate TailBit(offset: nat, k: nat, before: bool) {
    if k / 8 < offset / 8 then before else k >= offset
  }

  lemma SetHighBit(data: bv8, bits: bv8, done: nat, r: bv8)
    requires done < 8 && bits == Mask(7 - done) && r == data | bits
    requires forall k: nat | k < 8 :: ByteBit(data, k) <==> k >= 8 - done
    ensures forall k: nat | k < 8 :: ByteBit(r, k) <==> k >= 8 - (done + 1)
    ensures done < 7 ==> bits >> 1 == Mask(6 - done)
  {
    forall k: nat | k < 8
      ensures ByteBit(r, k) <==> k >= 8 - (done + 1)
    {
      ByteUpdate(data, 7 - done, true, k);
    }
    assert done == 0 || done == 1 || done == 2 || done == 3 || done == 4 || done == 5 || done == 6 || done == 7;
  }

  lemma AllOnes()
    ensures forall k: nat | k < 8 :: ByteBit(0xFF, k)
  {}

  /** Bit k of the zone bitmap once the file system is made, before the root directory takes its zone. */
  predicate MkfsBit(l: Layout, k: nat)
    requires l.zmapBlocks > 0 && l.zcount > 0
  {
    var last := (l.zmapBlocks - 1) * BLOCK_BITS;
    if k < last then k == 0 else TailBit(l.zcount % BLOCK_BITS, k - last, k == 0)
  }

  /** The zone half of mkfs: empty bitmap blocks, the reserved bit taken, the tail of the last block marked. */
  method Devmkfs(total: nat, icount: nat) returns (sb: SuperBlock)
    requires icount < total < 0x1_0000
    requires MkfsLayout(total, icount).zcount > 0
    ensures fresh(sb) && sb.Valid() && fresh(sb.zmaps)
    ensures var l := MkfsLayout(total, icount);
            && sb.zones == total && sb.firstDataZone == l.firstDataZone && |sb.zmaps| == l.zmapBlocks
            && forall k: nat | k < BLOCK_BITS * l.zmapBlocks ::
                 sb.Marked(l.firstDataZone - 1 + k) <==> MkfsBit(l, k)
    ensures var l := MkfsLayout(total, icount);
            8 <= l.zcount < BLOCK_BITS ==>
              sb.MarkedSet() == BitRange(l.firstDataZone, BLOCK_BITS) - DataZones(l.firstDataZone, total)
  {
    var l := MkfsLayout(total, icount);
    var zmaps := ZeroedBlocks(l.zmapBlocks);
    sb := new SuperBlock(total, l.firstDataZone, zmaps);
    ReserveFirstBit(sb);
    var last := l.zmapBlocks - 1;
    MarkTail(zmaps[last], l.zcount);
    forall k: nat | k < BLOCK_BITS * l.zmapBlocks
      ensures sb.Marked(l.firstDataZone - 1 + k) <==> MkfsBit(l, k)
    {
      var i := k / BLOCK_BITS;
      assert i == last <==> k >= last * BLOCK_BITS;
      assert i == last ==> k % BLOCK_BITS == k - last * BLOCK_BITS;
    }
    if 8 <= l.zcount < BLOCK_BITS {
      FreshMarkedSet(sb, l, total, icount);
    }
  }

  lemma FreshMarkedSet(sb: SuperBlock, l: Layout, total: nat, icount: nat)
    requires sb.Valid() && icount < total < 0x1_0000 && l == MkfsLayout(total, icount)
    requires 8 <= l.zcount < BLOCK_BITS && sb.firstDataZone == l.firstDataZone && |sb.zmaps| == l.zmapBlocks
    requires forall k: nat | k < BLOCK_BITS * l.zmapBlocks :: sb.Marked(l.firstDataZone - 1 + k) <==> MkfsBit(l, k)
    ensures sb.MarkedSet() == BitRange(l.firstDataZone, BLOCK_BITS) - DataZones(l.firstDataZone, total)
  {
    MkfsExact(total, icount);
    forall z: nat
      ensures z in sb.MarkedSet() <==> z in BitRange(l.firstDataZone, BLOCK_BITS) - DataZones(l.firstDataZone, total)
    {
      if z in BitRange(l.firstDataZone, BLOCK_BITS) {
        var k: nat := z - (l.firstDataZone - 1);
        assert sb.Marked(l.firstDataZone - 1 + k) <==> MkfsBit(l, k);
      }
    }
  }

  method ZeroedBlocks(n: nat) returns (zmaps: seq<array<bv8>>)
    ensures |zmaps| == n && fresh(zmaps)
    ensures forall i | 0 <= i < n :: zmaps[i].Length == BLOCK_SIZE
    ensures forall i, j | 0 <= i < j < n :: zmaps[i] != zmaps[j]
    ensures forall i: nat, k: nat | i < n && k < BLOCK_BITS :: !Bit(zmaps[i][..], k)
  {
    zmaps := [];
    while |zmaps| < n
      invariant |zmaps| <= n
      invariant fresh(zmaps)
      invariant forall i | 0 <= i < |zmaps| :: zmaps[i].Length == BLOCK_SIZE
      invariant forall i, j | 0 <= i < |zmaps| && 0 <= j < BLOCK_SIZE :: zmaps[i][j] == 0
      invariant forall i, j | 0 <= i < j < |zmaps| :: zmaps[i] != zmaps[j]
    {
      var block := new bv8[BLOCK_SIZE](_ => 0);
      zmaps := zmaps + [block];
    }
    AllZeros();
  }

  /** The first allocation on an empty bitmap takes bit 0, the number just below the first data zone. */
  method ReserveFirstBit(sb: SuperBlock)
    requires sb.Valid() && sb.firstDataZone <= sb.zones
    requires forall i: nat, k: nat | i < |sb.zmaps| && k < BLOCK_BITS :: !Bit(sb.zmaps[i][..], k)
    modifies sb.zmaps
    ensures forall i: nat, k: nat | i < |sb.zmaps| && k < BLOCK_BITS :: Bit(sb.zmaps[i][..], k) <==> i == 0 && k == 0
  {
    assert forall z: nat :: !sb.Marked(z);
    assert sb.HasBit(sb.firstDataZone - 1);
    var reserved := sb.Balloc();
    assert reserved == Zone(sb.firstDataZone - 1);
    forall i: nat, k: nat | i < |sb.zmaps| && k < BLOCK_BITS
      ensures Bit(sb.zmaps[i][..], k) <==> i == 0 && k == 0
    {
      var z: nat := sb.firstDataZone - 1 + BLOCK_BITS * i + k;
      assert (z - (sb.firstDataZone - 1)) / BLOCK_BITS == i && (z - (sb.firstDataZone - 1)) % BLOCK_BITS == k;
      assert sb.Marked(z) <==> Bit(sb.zmaps[i][..], k);
    }
  }

  lemma AllZeros()
    ensures forall k: nat | k < 8 :: !ByteBit(0, k)
  {}

  /**
   * The clear bits of a fresh bitmap stand for the data zones, one to one and nothing else, exactly when
   * the volume needs one bitmap block and the tail starts at byte 1 or later: 8 <= zcount < BLOCK_BITS.
   */
  lemma {:induction false} MkfsExact(total: nat, icount: nat)
    requires icount < total < 0x1_0000
    requires MkfsLayout(total, icount).zcount > 0
    ensures var l := MkfsLayout(total, icount);
            8 <= l.zcount < BLOCK_BITS <==>
            (forall k: nat | k < BLOCK_BITS * l.zmapBlocks ::
               !MkfsBit(l, k) <==> l.firstDataZone <= l.firstDataZone - 1 + k < total)
  {
    var l := MkfsLayout(total, icount);
    TailExact(l);
    assert total - l.firstDataZone == l.zcount - l.zmapBlocks;
  }

  /** A volume of 15104 blocks: one clear bit stands for a block that is not there. */
  lemma MkfsOverruns()
    ensures var l := MkfsLayout(15104, 0);
            l.zcount == 14943 && l.zmapBlocks == 2
            && !MkfsBit(l, l.zcount - 1) && l.firstDataZone - 1 + (l.zcount - 1) == 15104
  {}

  /** The bits left clear are 1 .. zcount - zmapBlocks exactly in that case. */
  lemma TailExact(l: Layout)
    requires 0 < l.zcount < 0x1_0000 && l.zmapBlocks == DivRoundUp(l.zcount, BLOCK_BITS)
    ensures 8 <= l.zcount < BLOCK_BITS <==>
            (forall k: nat | k < BLOCK_BITS * l.zmapBlocks :: !MkfsBit(l, k) <==> 1 <= k <= l.zcount - l.zmapBlocks)
  {
    if l.zcount < 8 {
      assert !MkfsBit(l, 0);
    } else if l.zcount == BLOCK_BITS {
      assert MkfsBit(l, 1);
    } else if l.zcount > BLOCK_BITS {
      assert 2 <= l.zmapBlocks <= ZMAP_NR;
      if l.zcount % BLOCK_BITS == 0 {
        assert MkfsBit(l, BLOCK_BITS * (l.zmapBlocks - 1));
      } else {
        assert !MkfsBit(l, l.zcount - 1);
      }
    }
  }

  /** Bit k of the inode bitmap once the file system is made: number 0 is reserved, number 1 is the root directory. */
  predicate ImapBit(l: Layout, k: nat)
    requires l.imapBlocks > 0
  {
    var last := (l.imapBlocks - 1) * BLOCK_BITS;
    if k < last then k < 2 else TailBit((l.inodes + 1) % BLOCK_BITS, k - last, k < 2)
  }

  /** The inode half of mkfs: empty bitmap blocks, the first two numbers taken, the tail of the last block marked. */
  method DevmkfsInodes(total: nat, icount: nat) returns (imaps: seq<array<bv8>>)
    requires icount < total < 0x1_0000 && MkfsLayout(total, icount).inodes >= 2
    ensures fresh(imaps) && |imaps| == MkfsLayout(total, icount).imapBlocks && forall i | 0 <= i < |imaps| :: imaps[i].Length == BLOCK_SIZE
    ensures forall k: nat | k < BLOCK_BITS * |imaps| ::
              Bit(imaps[k / BLOCK_BITS][..], k % BLOCK_BITS) <==> ImapBit(MkfsLayout(total, icount), k)
  {
    var l := MkfsLayout(total, icount);
    imaps := ZeroedBlocks(l.imapBlocks);
    TakeTwo(imaps[0]);
    MarkTail(imaps[l.imapBlocks - 1], l.inodes + 1);
  }

  /** Two allocations on an empty bitmap block. */
  method TakeTwo(block: array<bv8>)
    requires block.Length == BLOCK_SIZE && forall k: nat | k < BLOCK_BITS :: !Bit(block[..], k)
    modifies block
    ensures forall k: nat | k < BLOCK_BITS :: Bit(block[..], k) <==> k < 2
  {
    TakeFirst(block, 0);
    TakeFirst(block, 1);
  }

  method TakeFirst(block: array<bv8>, n: nat)
    requires block.Length == BLOCK_SIZE && n < BLOCK_BITS && forall k: nat | k < BLOCK_BITS :: Bit(block[..], k) <==> k < n
    modifies block
    ensures forall k: nat | k < BLOCK_BITS :: Bit(block[..], k) <==> k < n + 1
  {
    var bitmap := new Bitmap(block, BLOCK_SIZE, 0);
    assert bitmap.Contents() == block[..];
    assert FreeRun(block[..], n, 1);
    ghost var before := block[..];
    var bit := bitmap.Scan(1);
    assert bitmap.Contents() == block[..];
    assert FreeRun(before, bit, 1) && !Bit(before, bit);
  }

  /**
   * The clear bits of a fresh inode bitmap stand for the inodes behind the root's, one to one, exactly when there are at
   * least seven inodes and the first invalid bit is not the first or the second of a block.
   */
  lemma MkfsInodesExact(total: nat, icount: nat)
    requires icount < total < 0x1_0000 && MkfsLayout(total, icount).inodes >= 2
    ensures var l := MkfsLayout(total, icount);
            7 <= l.inodes && l.inodes % BLOCK_BITS != 0 && l.inodes % BLOCK_BITS != BLOCK_BITS - 1 <==>
            (forall k: nat | k < BLOCK_BITS * l.imapBlocks :: !ImapBit(l, k) <==> 2 <= k <= l.inodes)
  {
    InodeTailExact(MkfsLayout(total, icount));
  }

  lemma InodeTailExact(l: Layout)
    requires 2 <= l.inodes < 0x1_0000 && l.imapBlocks == DivRoundUp(l.inodes, BLOCK_BITS)
    ensures 7 <= l.inodes && l.inodes % BLOCK_BITS != 0 && l.inodes % BLOCK_BITS != BLOCK_BITS - 1 <==>
            (forall k: nat | k < BLOCK_BITS * l.imapBlocks :: !ImapBit(l, k) <==> 2 <= k <= l.inodes)
  {
    var last := BLOCK_BITS * (l.imapBlocks - 1);
    var q := l.inodes - last;
    assert 1 <= l.imapBlocks <= ZMAP_NR && 1 <= q <= BLOCK_BITS;
    assert l.inodes % BLOCK_BITS == q % BLOCK_BITS && (l.inodes + 1) % BLOCK_BITS == (q + 1) % BLOCK_BITS;
    if l.inodes < 7 {
      assert !ImapBit(l, 0);
    } else if q == BLOCK_BITS {
      assert ImapBit(l, l.inodes - 1);
    } else if q == BLOCK_BITS - 1 {
      assert ImapBit(l, l.inodes);
    } else {
      assert (q + 1) % BLOCK_BITS == q + 1;
    }
  }

  /** On a volume of 24576 blocks the default number of inodes leaves a single bit clear, that of the reserved number 0. */
  lemma MkfsLosesInodes()
    ensures var l := MkfsLayout(24576, 0);
            l.inodes == 8192 && l.imapBlocks == 1 && forall k: nat | k < BLOCK_BITS :: !ImapBit(l, k) <==> k == 0
  {}

  // ---------- whole runs of allocation and freeing ----------

  datatype ZoneOp = Took(z: nat) | Freed(z: nat)

  /** The zones taken and not freed again. */
  function LiveAfter(ops: seq<ZoneOp>): set<nat> {
    if ops == [] then {}
    else
      var live := LiveAfter(ops[..|ops| - 1]);
      match ops[|ops| - 1]
      case Took(z) => live + {z}
      case Freed(z) => live - {z}
  }

  /** The numbers that have a bit, for a bitmap of the given number of bits. */
  function BitRange(first: nat, bits: nat): set<nat>
    requires first > 0
  {
    Interval(first - 1, first - 1 + bits)
  }

  function DataZones(first: nat, zones: nat): set<nat> {
    Interval(first, zones)
  }

  /** What balloc and bfree do to the marked set of a volume with the given number of blocks. */
  predicate ZoneStep(first: nat, bits: nat, zones: nat, marked: set<nat>, op: ZoneOp, marked': set<nat>)
    requires first > 0
  {
    match op
    case Took(z) =>
      && z in BitRange(first, bits) && z < zones && z !in marked
      && (forall y | y in BitRange(first, bits) && y < z :: y in marked)
      && marked' == marked + {z}
    case Freed(z) =>
      z in marked && marked' == marked - {z}
  }

  /** A run in which only zones still held are freed. */
  ghost predicate ZoneRun(first: nat, bits: nat, zones: nat, start: set<nat>, ops: seq<ZoneOp>, end: set<nat>)
    requires first > 0
  {
    if ops == [] then end == start
    else
      var before := ops[..|ops| - 1];
      var op := ops[|ops| - 1];
      && (op.Freed? ==> op.z in LiveAfter(before))
      && exists mid :: ZoneRun(first, bits, zones, start, before, mid) && ZoneStep(first, bits, zones, mid, op, end)
  }

  /**
   * From any bitmap whose reserved bit is set, however zones are taken and freed: no live zone is handed out
   * again, every zone handed out is a data zone, and the marked set is what was marked at first plus the live zones.
   */
  lemma {:induction false} RunsAreSafe(first: nat, bits: nat, zones: nat, start: set<nat>, ops: seq<ZoneOp>, end: set<nat>)
    requires first > 0 && first - 1 in start
    requires ZoneRun(first, bits, zones, start, ops, end)
    ensures LiveAfter(ops) <= DataZones(first, zones) * BitRange(first, bits) - start
    ensures end == start + LiveAfter(ops)
    ensures forall i | 0 <= i < |ops| && ops[i].Took? ::
              ops[i].z in DataZones(first, zones) && ops[i].z !in LiveAfter(ops[..i])
  {
    if ops != [] {
      var before := ops[..|ops| - 1];
      var op := ops[|ops| - 1];
      var mid :| ZoneRun(first, bits, zones, start, before, mid) && ZoneStep(first, bits, zones, mid, op, end);
      RunsAreSafe(first, bits, zones, start, before, mid);
      forall i | 0 <= i < |ops| && ops[i].Took?
        ensures ops[i].z in DataZones(first, zones) && ops[i].z !in LiveAfter(ops[..i])
      {
        if i < |before| {
          assert ops[..i] == before[..i] && ops[i] == before[i];
        }
      }
    }
  }

  /** A freed zone can be taken again: after any run, taking is possible exactly when some data zone is neither live nor marked at first. */
  lemma {:induction false} FreedZonesAreReusable(first: nat, bits: nat, zones: nat, start: set<nat>, ops: seq<ZoneOp>, end: set<nat>)
    requires 0 < first && zones <= first - 1 + bits && first - 1 in start
    requires ZoneRun(first, bits, zones, start, ops, end)
    ensures !(DataZones(first, zones) <= start + LiveAfter(ops)) <==>
            exists z, end' :: ZoneStep(first, bits, zones, end, Took(z), end')
  {
    RunsAreSafe(first, bits, zones, start, ops, end);
    var free := DataZones(first, zones) - end;
    if free != {} {
      var z := Least(free);
      forall y | y in BitRange(first, bits) && y < z
        ensures y in end
      {
        assert y !in free;
      }
      assert ZoneStep(first, bits, zones, end, Took(z), end + {z});
    } else {
      forall z, end' | ZoneStep(first, bits, zones, end, Took(z), end')
        ensures z in DataZones(first, zones) && z !in end
      {}
    }
  }
}
