/** The file layer of a mounted volume: mapping, reading, writing and truncating files. */
module FileSystem {
  import opened Blocks
  import opened BlockTree
  import opened BlockMapping
  import opened Bytes
  import opened Limits
  import opened Options
  import opened FileContents
  import opened FileWriting
  import opened Truncation
  import Zones

  /** Where the array of zone numbers at hand lives: in the inode, or in an index block. */
  datatype Holder = InInode | InBlock(y: Word)

  /** The position reached from p by going up the given number of levels. */
  function Up(p: Pos, level: nat): Pos
    requires level <= p.Depth()
    decreases level
  {
    if level == 0 then p else Up(p.Parent(), level - 1)
  }

  lemma UpAbove(p: Pos, level: nat)
    requires level <= p.Depth()
    ensures Up(p, level).Above(p)
    ensures Up(p, level).Depth() == p.Depth() - level
    ensures level > 0 ==> Up(p, level - 1).Parent() == Up(p, level) && Up(p, level).IsIndex()
    decreases level
  {
    if level > 0 {
      UpAbove(p.Parent(), level - 1);
    }
  }

  /** What block and divider of the walk still say about the places below the current level. */
  predicate RestOfPath(p: Pos, level: nat, block: nat, divider: nat)
    requires level <= p.Depth()
  {
    && (level == 2 ==> divider == BLOCK_INDEXES && block / BLOCK_INDEXES == p.Parent().Place()
                       && block % BLOCK_INDEXES == p.Place())
    && (level == 1 ==> divider == 1 && block == p.Place())
  }

  class Files {
    var inodes: map<nat, Inode>
    var disk: seq<Block>
    const sb: Zones.SuperBlock

    constructor (inodes: map<nat, Inode>, disk: seq<Block>, sb: Zones.SuperBlock)
      ensures this.inodes == inodes && this.disk == disk && this.sb == sb
    {
      this.inodes := inodes;
      this.disk := disk;
      this.sb := sb;
    }

    ghost function Vol(): Volume
      requires sb.Valid()
      reads this, sb.zmaps
    {
      Volume(inodes, disk, sb.MarkedSet(), sb.firstDataZone, sb.zones)
    }

    /** Every zone of the volume has a bit, and the reserved one is set. Nothing is said about what files hold. */
    ghost predicate Valid()
      reads this, sb.zmaps
    {
      && sb.Valid() && sb.zones <= sb.firstDataZone - 1 + BLOCK_BITS * |sb.zmaps|
      && sb.firstDataZone - 1 in Vol().used
      && Shaped(Vol())
    }

    /** File n of the sound volume v is being freed: blocks and bounds are still those of v. */
    ghost predicate Freeing(v: Volume, n: nat)
      reads this
    {
      && sb.Valid() && Sound(v) && n in v.inodes
      && disk == v.disk && v.first == sb.firstDataZone && v.zones == sb.zones
    }

    /** Entry index of the array at hand. */
    function SlotValue(n: nat, holder: Holder, index: nat): Word
      requires n in inodes && |inodes[n].zone| == ZONE_SLOTS && |disk| == DISK_BLOCKS
      requires if holder.InInode? then index < ZONE_SLOTS else index < BLOCK_INDEXES
      reads this
    {
      match holder
      case InInode => inodes[n].zone[index]
      case InBlock(y) => Entry(disk[y], index)
    }

    /** The array at hand and the index denote position p of inode n. */
    ghost predicate Denotes(n: nat, holder: Holder, index: nat, p: Pos)
      requires sb.Valid()
      reads this, sb.zmaps
    {
      && Shaped(Vol()) && n in inodes
      && index == p.Place()
      && (if p.Root() then holder.InInode? else holder == InBlock(ZoneAt(Vol(), n, p.Parent())) && holder.y != 0)
    }

    /** array[index] = balloc(dev): the lowest free zone, whatever it contains. False: no data zone is left. */
    method FillSlot(n: nat, holder: Holder, index: nat, ghost p: Pos) returns (ok: bool)
      requires Valid() && Denotes(n, holder, index, p) && ZoneAt(Vol(), n, p) == 0
      modifies this`inodes, this`disk, sb.zmaps
      ensures match FillAt(old(Vol()), n, p)
              case None => !ok
              case Some(w) => ok && Valid() && Vol() == w
    {
      ghost var v := Vol();
      var z := sb.Balloc();
      if !z.Zone? {
        assert FreeZones(v) == {};
        return false;
      }
      assert z.nr in FreeZones(v) && z.nr == NextFree(v);
      match holder {
        case InInode =>
          inodes := inodes[n := inodes[n].(zone := inodes[n].zone[index := z.nr])];
        case InBlock(y) =>
          disk := disk[y := SetEntry(disk[y], index, z.nr)];
      }
      ok := true;
      assert Vol() == Attach(v, n, p, z.nr);
    }

    /** One level of the walk: look at the slot for position c, and fill it if it is empty and create is set. */
    method BmapLevel(n: nat, holder: Holder, index: nat, create: bool, ghost c: Pos) returns (r: Option<Word>)
      requires Valid() && Denotes(n, holder, index, c)
      modifies this`inodes, this`disk, sb.zmaps
      ensures !create ==> Vol() == old(Vol()) && r == Some(ZoneAt(Vol(), n, c))
      ensures create ==>
                match FillAt(old(Vol()), n, c)
                case None => r.None?
                case Some(w) => Valid() && Vol() == w && r == Some(ZoneAt(w, n, c)) && r.value != 0
    {
      if SlotValue(n, holder, index) == 0 && create {
        ghost var v := Vol();
        var ok := FillSlot(n, holder, index, c);
        if !ok {
          return None;
        }
        AttachHolds(v, n, c, NextFree(v));
        if !c.Root() {
          AttachMovesNothing(v, n, c, NextFree(v), n, c.Parent());
        }
      }
      return Some(SlotValue(n, holder, index));
    }

    /** Choose the slot of the inode from which block b is reached. */
    static method StartWalk(b: nat) returns (index: nat, block: nat, level: nat, divider: nat)
      requires b < TOTAL_BLOCK
      ensures level == PosOf(b).Depth()
      ensures Up(PosOf(b), level).Root() && index == Up(PosOf(b), level).Place()
      ensures RestOfPath(PosOf(b), level, block, divider)
    {
      UpAbove(PosOf(b), PosOf(b).Depth());
      index, block, level, divider := b % 0x1_0000, b, 0, 1;
      if block < DIRECT_BLOCK {
        return;
      }
      block := block - DIRECT_BLOCK;
      if block < BLOCK_INDEXES {
        index, level, divider := DIRECT_BLOCK, 1, 1;
        return;
      }
      block := block - BLOCK_INDEXES;
      index, level, divider := DIRECT_BLOCK + 1, 2, BLOCK_INDEXES;
    }

    /** What cannot be filled higher up is not reached. */
    static lemma {:induction false} FilledFails(v: Volume, n: nat, c: Pos, p: Pos)
      requires Shaped(v) && n in v.inodes && c.Above(p) && Filled(v, n, c).None?
      ensures Filled(v, n, p).None?
      decreases p.Depth()
    {
      if c != p {
        FilledFails(v, n, c, p.Parent());
      }
    }

    lemma Descend(n: nat, p: Pos, level: nat, block: nat, divider: nat, z: Word)
      requires Valid() && n in inodes && 0 < level <= p.Depth() && RestOfPath(p, level, block, divider)
      requires z != 0 && z == ZoneAt(Vol(), n, Up(p, level))
      ensures 0 < divider
      ensures Denotes(n, InBlock(z), block / divider, Up(p, level - 1))
      ensures RestOfPath(p, level - 1, block % divider, divider / BLOCK_INDEXES)
    {
      UpAbove(p, level);
      assert level == 1 || level == 2;
      assert level == 2 ==> Up(p, 1) == p.Parent();
    }

    /**
     * The zone of block b of file n; with create, missing zones on the way are taken. None stands for
     * a failed kernel assertion: the block number is too large, or no data zone is left.
     */
    method Bmap(n: nat, b: nat, create: bool) returns (r: Option<Word>)
      requires Valid() && n in inodes
      modifies this`inodes, this`disk, sb.zmaps
      ensures b >= TOTAL_BLOCK ==> r.None?
      ensures !create ==> Vol() == old(Vol()) && (b < TOTAL_BLOCK ==> r == Some(BlockOf(Vol(), n, b)))
      ensures create && b < TOTAL_BLOCK ==>
                match Filled(old(Vol()), n, PosOf(b))
                case None => r.None?
                case Some(w) => Valid() && Vol() == w && r == Some(BlockOf(w, n, b)) && r.value != 0
    {
      if b >= TOTAL_BLOCK {
        return None;
      }
      ghost var p := PosOf(b);
      var index: nat, block: nat, level: nat, divider: nat := StartWalk(b);
      var holder := InInode;
      ghost var v := Vol();
      while true
        invariant level <= p.Depth()
        invariant Valid() && Denotes(n, holder, index, Up(p, level))
        invariant if create then BeforeFill(v, n, Up(p, level)) == Some(Vol()) else Vol() == v
        invariant RestOfPath(p, level, block, divider)
        decreases level
      {
        var z := BmapLevel(n, holder, index, create, Up(p, level));
        UpAbove(p, level);
        if z.None? {
          FilledFails(v, n, Up(p, level), p);
          return None;
        }
        if z.value == 0 {
          EmptyBelow(Vol(), n, Up(p, level), p);
        }
        if level == 0 || z.value == 0 {
          return z;
        }
        Descend(n, p, level, block, divider, z.value);
        holder := InBlock(z.value);
        index := block / divider;
        block := block % divider;
        divider := divider / BLOCK_INDEXES;
        level := level - 1;
      }
    }

    /** bmap without create. */
    method Lookup(n: nat, b: nat) returns (r: Option<Word>)
      requires Valid() && n in inodes
      modifies this`inodes, this`disk, sb.zmaps
      ensures Valid() && Vol() == old(Vol())
      ensures r == if b < TOTAL_BLOCK then Some(BlockOf(Vol(), n, b)) else None
    {
      r := Bmap(n, b, false);
    }

    /**
     * Read up to len bytes from offset. None stands for the failed assertion on a block that is not
     * there; EOF is returned for an offset at or beyond the size.
     */
    method InodeRead(n: nat, len: nat, offset: nat) returns (r: Option<int>, data: seq<Byte>)
      requires Valid() && n in inodes
      modifies this`inodes, this`disk, sb.zmaps
      ensures Valid() && Vol() == old(Vol())
      ensures offset >= inodes[n].size ==> r == Some(EOF) && data == []
      ensures offset < inodes[n].size ==>
                var k := Min(len, inodes[n].size - offset);
                && (r.None? <==> MissingBlock(Vol(), n, offset, k))
                && (r.Some? ==> r.value == k && data == Contents(Vol(), n)[offset..offset + k])
    {
      data := [];
      if offset >= inodes[n].size {
        r := Some(EOF);
        return;
      }
      var at: nat := offset;
      var left: nat := Min(len, inodes[n].size - offset);
      ghost var v, k: nat := Vol(), left;
      while left > 0
        invariant Valid() && Vol() == v
        invariant left + |data| == k && at == offset + |data|
        invariant ReadSoFar(v, n, offset, k, data)
      {
        var chunk := ReadChunk(n, at, left, offset, data);
        if chunk.None? {
          r := None;
          return;
        }
        data := data + chunk.value;
        at := at + |chunk.value|;
        left := left - |chunk.value|;
      }
      SliceOfContents(v, n, offset, k);
      r := Some(at - offset);
    }

    /** One turn of the read loop: the part of one block that is asked for. */
    method ReadChunk(n: nat, at: nat, left: nat, ghost offset: nat, ghost data: seq<Byte>) returns (chunk: Option<seq<Byte>>)
      requires Valid() && n in inodes && left > 0 && at == offset + |data| && at + left <= MAX_SIZE
      requires ReadSoFar(Vol(), n, offset, |data| + left, data)
      modifies this`inodes, this`disk, sb.zmaps
      ensures Valid() && Vol() == old(Vol())
      ensures chunk.None? ==> MissingBlock(Vol(), n, offset, |data| + left)
      ensures chunk.Some? ==> 0 < |chunk.value| <= left && ReadSoFar(Vol(), n, offset, |data| + left, data + chunk.value)
    {
      hide ReadSoFar, MissingBlock;
      ghost var v := Vol();
      ReadStep(v, n, offset, |data| + left, data);
      var nr := Lookup(n, at / BLOCK_SIZE);
      if nr.None? || nr.value == 0 {
        return None;
      }
      var start := at % BLOCK_SIZE;
      var chars: nat := Min(BLOCK_SIZE - start, left);
      return Some(disk[nr.value][start..start + chars]);
    }

    /**
     * Free the zone at array[index] and, for an index block, everything it leads to. False stands for
     * a failed kernel assertion in bfree. The position p and the volume v before the truncation are
     * ghosts: v says what the slots of file n held when it began.
     */
    method InodeBfree(n: nat, holder: Holder, index: nat, level: nat, ghost p: Pos, ghost v: Volume) returns (ok: bool)
      requires Freeing(v, n) && level == Height(p) && index == p.Place() && n in inodes && Shaped(Vol())
      requires if p.Root() then holder.InInode? else holder.InBlock?
      requires SlotValue(n, holder, index) == ZoneAt(v, n, p)
      requires Tree(v, n, p) <= Vol().used
      modifies sb.zmaps
      ensures ok <==> Zones.Findable(sb.firstDataZone, Tree(v, n, p))
      ensures ok ==> Vol().used == old(Vol().used) - Tree(v, n, p)
      decreases level, 1
    {
      hide NoSharing, Marked;
      var z := SlotValue(n, holder, index);
      if z == 0 {
        EmptyTree(v, n, p);
        return true;
      }
      HeldInRange(v, n, p);
      if level == 0 {
        LeafTree(v, n, p);
        ok := FreeZone(z);
        return;
      }
      TreeByChildren(v, n, p);
      NextChildDisjoint(v, n, p, BLOCK_INDEXES);
      ok := FreeChildren(n, z, level - 1, p, v);
      if ok {
        ok := FreeZone(z);
      }
    }

    /** The loop over an index block. */
    method FreeChildren(n: nat, z: Word, level: nat, ghost p: Pos, ghost v: Volume) returns (ok: bool)
      requires Freeing(v, n) && n in inodes && Shaped(Vol())
      requires p.IsIndex() && level + 1 == Height(p) && z == ZoneAt(v, n, p) && z != 0
      requires Tree(v, n, p) <= Vol().used
      modifies sb.zmaps
      ensures ok <==> Zones.Findable(sb.firstDataZone, ChildTrees(v, n, p, BLOCK_INDEXES))
      ensures ok ==> Vol().used == old(Vol().used) - ChildTrees(v, n, p, BLOCK_INDEXES)
      decreases level, 3
    {
      hide NoSharing, Marked, Tree;
      var i := 0;
      while i < BLOCK_INDEXES
        invariant 0 <= i <= BLOCK_INDEXES
        invariant Zones.Findable(sb.firstDataZone, ChildTrees(v, n, p, i))
        invariant Vol().used == old(Vol().used) - ChildTrees(v, n, p, i)
      {
        ok := FreeChild(n, z, i, level, p, v);
        if !ok {
          ChildTreesGrow(v, n, p, i + 1, BLOCK_INDEXES);
          return;
        }
        i := i + 1;
      }
      ok := true;
    }

    /** One turn of the loop over an index block. */
    method FreeChild(n: nat, z: Word, i: Index, level: nat, ghost p: Pos, ghost v: Volume) returns (ok: bool)
      requires Freeing(v, n) && n in inodes && Shaped(Vol())
      requires p.IsIndex() && level + 1 == Height(p) && z == ZoneAt(v, n, p) && z != 0
      requires Tree(v, n, p) <= Vol().used + ChildTrees(v, n, p, i)
      modifies sb.zmaps
      ensures ok <==> Zones.Findable(sb.firstDataZone, Tree(v, n, p.Child(i)))
      ensures ok ==> Vol().used == old(Vol().used) - Tree(v, n, p.Child(i))
      decreases level, 2
    {
      hide NoSharing, Marked;
      NextChildDisjoint(v, n, p, i);
      TreeByChildren(v, n, p);
      ChildTreeInTree(v, n, p, i);
      ok := InodeBfree(n, InBlock(z), i, level, p.Child(i), v);
    }

    /** bfree on a marked zone of the volume. */
    method FreeZone(z: Word) returns (ok: bool)
      requires sb.Valid() && z in Vol().used && sb.firstDataZone <= z < sb.zones
      modifies sb.zmaps
      ensures ok <==> Zones.Findable(sb.firstDataZone, {z as nat})
      ensures ok ==> Vol().used == old(Vol().used) - {z as nat}
    {
      ok := sb.Bfree(z);
    }

    /** The first k slots of file n are cleared and what they led to is free; nothing else has changed since v. */
    ghost predicate Clearing(v: Volume, n: nat, k: nat)
      requires k <= ZONE_SLOTS
      reads this, sb.zmaps
    {
      && Freeing(v, n)
      && inodes == v.inodes[n := v.inodes[n].(zone := Cleared(v.inodes[n].zone, k))]
      && Vol().used == v.used - RootTrees(v, n, k)
      && Zones.Findable(sb.firstDataZone, RootTrees(v, n, k))
    }

    /** Free what slot k of the inode leads to, and clear the slot. */
    method FreeRoot(n: nat, k: nat, level: nat, ghost v: Volume) returns (ok: bool)
      requires k < ZONE_SLOTS && level == Height(RootPos(k)) && Clearing(v, n, k)
      modifies this`inodes, sb.zmaps
      ensures ok ==> Clearing(v, n, k + 1)
      ensures !ok ==> !Zones.Findable(sb.firstDataZone, Held(v, n))
    {
      hide NoSharing, Marked, Tree;
      NextRootDisjoint(v, n, k);
      ok := InodeBfree(n, InInode, k, level, RootPos(k), v);
      if !ok {
        RootTreeHeld(v, n, k);
        return;
      }
      inodes := inodes[n := inodes[n].(zone := inodes[n].zone[k := 0])];
      ClearedNext(v.inodes[n].zone, k);
    }

    /**
     * Free every zone of file n, each once, and empty it. False stands for a failed assertion in bfree, and
     * comes exactly when some zone of the file is not looked for where its bit is kept.
     */
    method InodeTruncate(n: nat) returns (ok: bool)
      requires Valid() && Sound(Vol()) && n in inodes
      modifies this`inodes, sb.zmaps
      ensures ok <==> Zones.Findable(sb.firstDataZone, Held(old(Vol()), n))
      ensures ok ==> Valid() && Vol() == Truncated(old(Vol()), n)
    {
      hide NoSharing, Marked, Tree, RootTrees, Held;
      ghost var v := Vol();
      NothingCleared(v, n);
      var i := 0;
      while i < DIRECT_BLOCK
        invariant 0 <= i <= DIRECT_BLOCK
        invariant Clearing(v, n, i)
      {
        ok := FreeRoot(n, i, 0, v);
        if !ok {
          return;
        }
        i := i + 1;
      }
      ok := FreeRoot(n, DIRECT_BLOCK, 1, v);
      if !ok {
        return;
      }
      ok := FreeRoot(n, DIRECT_BLOCK + 1, 2, v);
      if !ok {
        return;
      }
      SetEmpty(n, v);
    }

    /** The size goes to zero last. */
    method SetEmpty(n: nat, ghost v: Volume)
      requires Clearing(v, n, ZONE_SLOTS) && v.first - 1 in v.used && sb.zones <= sb.firstDataZone - 1 + BLOCK_BITS * |sb.zmaps|
      modifies this`inodes
      ensures Valid() && Vol() == Truncated(v, n) && Zones.Findable(sb.firstDataZone, Held(v, n))
    {
      hide NoSharing, Marked, Tree;
      RootTreesAreHeld(v, n);
      assert Cleared(v.inodes[n].zone, ZONE_SLOTS) == NoZones();
      inodes := inodes[n := inodes[n].(size := 0)];
      assert inodes == v.inodes[n := Inode(0, NoZones())];
      assert Vol() == Truncated(v, n);
      TruncatedKeeps(v, n);
      ReservedNotHeld(v, n);
    }

    /** One turn of the write loop: map the block, move the size up, copy the bytes. */
    method WriteChunk(n: nat, at: nat, chunk: seq<Byte>, ghost data: seq<Byte>) returns (ok: bool)
      requires Valid() && n in inodes && data != [] && chunk == data[..ChunkLen(at, |data|)]
      modifies this`inodes, this`disk, sb.zmaps
      ensures match WrittenChunk(old(Vol()), n, at, data)
              case None => !ok
              case Some(w) => ok && Valid() && Vol() == w
    {
      var nr := Bmap(n, at / BLOCK_SIZE, true);
      if nr.None? {
        return false;
      }
      PutBytes(n, nr.value, at, chunk);
      ok := true;
    }

    /** The second half of the turn, once the block is known. */
    method PutBytes(n: nat, z: Word, at: nat, chunk: seq<Byte>)
      requires Valid() && n in inodes && at % BLOCK_SIZE + |chunk| <= BLOCK_SIZE
      requires at / BLOCK_SIZE < TOTAL_BLOCK && z == BlockOf(Vol(), n, at / BLOCK_SIZE)
      modifies this`inodes, this`disk
      ensures Valid() && Vol() == PutChunk(old(Vol()), n, at / BLOCK_SIZE, at % BLOCK_SIZE, chunk)
    {
      ghost var v := Vol();
      if at + |chunk| > inodes[n].size {
        inodes := inodes[n := inodes[n].(size := at + |chunk|)];
      }
      disk := disk[z := Splice(disk[z], at % BLOCK_SIZE, chunk)];
      assert inodes == v.inodes[n := v.inodes[n].(size := Max(v.inodes[n].size, at + |chunk|))];
    }

    /**
     * Write the first len bytes of buf at offset. None stands for a failed kernel assertion: the file would
     * grow beyond its largest size, or no data zone is left for some block.
     */
    method InodeWrite(n: nat, buf: seq<Byte>, len: nat, offset: nat) returns (r: Option<nat>)
      requires Valid() && n in inodes && len <= |buf|
      modifies this`inodes, this`disk, sb.zmaps
      ensures match Written(old(Vol()), n, offset, buf[..len])
              case None => r.None?
              case Some(w) => r == Some(len) && Valid() && Vol() == w
    {
      hide Written, WrittenChunk, Shaped;
      ghost var data := buf[..len];
      assert data == buf[0..len];
      var at: nat := offset;
      var left: nat := len;
      while left > 0
        invariant at + left == offset + len && at >= offset
        invariant Valid() && n in inodes
        invariant Written(old(Vol()), n, offset, data) == Written(Vol(), n, at, buf[at - offset..len])
      {
        var start := at % BLOCK_SIZE;
        var chars: nat := Min(BLOCK_SIZE - start, left);
        ghost var rest := buf[at - offset..len];
        assert rest[..chars] == buf[at - offset..at - offset + chars] && rest[chars..] == buf[at - offset + chars..len];
        WrittenByTurns(Vol(), n, at, rest);
        var ok := WriteChunk(n, at, buf[at - offset..at - offset + chars], rest);
        if !ok {
          return None;
        }
        at := at + chars;
        left := left - chars;
      }
      WrittenByTurns(Vol(), n, at, buf[at - offset..len]);
      return Some(at - offset);
    }
  }

  /** The bytes off .. off+len-1 of file n. */
  function FileSlice(v: Volume, n: nat, off: nat, len: nat): seq<Byte>
    requires Shaped(v) && n in v.inodes && off + len <= MAX_SIZE
  {
    seq(len, (i: nat) requires i < len => FileByte(v, n, off + i))
  }

  lemma SliceOfContents(v: Volume, n: nat, off: nat, len: nat)
    requires Shaped(v) && n in v.inodes && off + len <= v.inodes[n].size
    ensures FileSlice(v, n, off, len) == Contents(v, n)[off..off + len]
  {}

  /** data is what a read of len bytes from off has gathered after some whole turns of its loop. */
  ghost predicate ReadSoFar(v: Volume, n: nat, off: nat, len: nat, data: seq<Byte>)
    requires Shaped(v) && n in v.inodes && off + len <= MAX_SIZE
  {
    && |data| <= len
    && (data == [] || |data| == len || (off + |data|) % BLOCK_SIZE == 0)
    && data == FileSlice(v, n, off, len)[..|data|]
    && !MissingBlock(v, n, off, |data|)
  }

  lemma ReadOneMore(v: Volume, n: nat, off: nat, len: nat, data: seq<Byte>, chars: nat, chunk: seq<Byte>)
    requires Shaped(v) && n in v.inodes && off + len <= MAX_SIZE && |data| < len
    requires ReadSoFar(v, n, off, len, data)
    requires chars == Min(BLOCK_SIZE - (off + |data|) % BLOCK_SIZE, len - |data|)
    requires BlockOf(v, n, (off + |data|) / BLOCK_SIZE) != 0
    requires var start := (off + |data|) % BLOCK_SIZE;
             chunk == v.disk[BlockOf(v, n, (off + |data|) / BLOCK_SIZE)][start..start + chars]
    ensures ReadSoFar(v, n, off, len, data + chunk)
  {
    var done := |data|;
    var start := (off + done) % BLOCK_SIZE;
    var slice := FileSlice(v, n, off, len);
    forall i | 0 <= i < chars
      ensures slice[done + i] == chunk[i]
    {
      var o := off + (done + i);
      assert slice[done + i] == FileByte(v, n, o);
      assert o / BLOCK_SIZE == (off + done) / BLOCK_SIZE && o % BLOCK_SIZE == start + i;
    }
    assert data + chunk == slice[..done + chars];
    forall b: nat
      ensures Touched(off, done + chars, b) <==> Touched(off, done, b) || b == (off + done) / BLOCK_SIZE
    {
      TouchedOneMore(off, done, chars, b);
    }
  }

  /** Either the next block is not there, or its part of the slice comes next. */
  lemma ReadStep(v: Volume, n: nat, off: nat, len: nat, data: seq<Byte>)
    requires Shaped(v) && n in v.inodes && off + len <= MAX_SIZE && |data| < len
    requires ReadSoFar(v, n, off, len, data)
    ensures (off + |data|) / BLOCK_SIZE < TOTAL_BLOCK
    ensures var z := BlockOf(v, n, (off + |data|) / BLOCK_SIZE);
            var start := (off + |data|) % BLOCK_SIZE;
            var chars := Min(BLOCK_SIZE - start, len - |data|);
            && (z == 0 ==> MissingBlock(v, n, off, len))
            && (z != 0 ==> ReadSoFar(v, n, off, len, data + v.disk[z][start..start + chars]))
  {
    var z := BlockOf(v, n, (off + |data|) / BLOCK_SIZE);
    var start := (off + |data|) % BLOCK_SIZE;
    var chars := Min(BLOCK_SIZE - start, len - |data|);
    if z == 0 {
      assert Touched(off, len, (off + |data|) / BLOCK_SIZE);
    } else {
      ReadOneMore(v, n, off, len, data, chars, v.disk[z][start..start + chars]);
    }
  }

  /** Some block that the bytes off .. off+len-1 need is not there. */
  ghost predicate MissingBlock(v: Volume, n: nat, off: nat, len: nat)
    requires Shaped(v) && n in v.inodes && off + len <= MAX_SIZE
  {
    exists b: nat :: Touched(off, len, b) && BlockOf(v, n, b) == 0
  }
}
