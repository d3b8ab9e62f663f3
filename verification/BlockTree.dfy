/**
 * The block tree of an inode: seven direct zones, one single-indirect and one double-indirect tree.
 * A position names one slot of the tree; the facts here are about how one assignment to one slot
 * changes what every other slot of every other inode holds.
 */
module BlockTree {
  import opened Blocks
  import opened Bytes

  const DIRECT_BLOCK := 7
  const BLOCK_INDEXES := 512
  const TOTAL_BLOCK := DIRECT_BLOCK + BLOCK_INDEXES + BLOCK_INDEXES * BLOCK_INDEXES
  const ZONE_SLOTS := 9
  const DISK_BLOCKS := 0x1_0000

  type Word = n: nat | n < 0x1_0000
  type Index = i: nat | i < BLOCK_INDEXES
  type Slot = i: nat | i < DIRECT_BLOCK

  /** A slot of the tree that holds a zone number. */
  datatype Pos =
    | Direct(slot: Slot)
    | Single
    | SingleData(i: Index)
    | Double
    | DoubleIndex(i: Index)
    | DoubleData(i: Index, j: Index)
  {
    /** Kept in the inode itself. */
    predicate Root() {
      Direct? || Single? || Double?
    }

    /** The zone held here is used as an array of zone numbers. */
    predicate IsIndex() {
      Single? || Double? || DoubleIndex?
    }

    function Parent(): Pos
      requires !Root()
    {
      match this
      case SingleData(_) => Single
      case DoubleIndex(_) => Double
      case DoubleData(i, _) => DoubleIndex(i)
    }

    /** Which slot of the inode, or which entry of the parent's index block. */
    function Place(): nat
      ensures Root() ==> Place() < ZONE_SLOTS
      ensures !Root() ==> Place() < BLOCK_INDEXES
    {
      match this
      case Direct(s) => s
      case Single => DIRECT_BLOCK
      case Double => DIRECT_BLOCK + 1
      case SingleData(i) => i
      case DoubleIndex(i) => i
      case DoubleData(_, j) => j
    }

    function Child(k: Index): Pos
      requires IsIndex()
    {
      match this
      case Single => SingleData(k)
      case Double => DoubleIndex(k)
      case DoubleIndex(i) => DoubleData(i, k)
    }

    function Depth(): nat {
      if Root() then 0 else if DoubleData? then 2 else 1
    }

    /** This slot is q, or lies on the way from the inode down to q. */
    predicate Above(q: Pos)
      decreases q.Depth()
    {
      this == q || (!q.Root() && Above(q.Parent()))
    }
  }

  /** Distinct slots differ in their parents or in their places. */
  lemma PosByParentAndPlace(p: Pos, q: Pos)
    requires p.Root() == q.Root() && p.Place() == q.Place()
    requires !p.Root() ==> p.Parent() == q.Parent()
    ensures p == q
  {}

  /** The slot of the b-th block of a file. */
  function PosOf(b: nat): Pos
    requires b < TOTAL_BLOCK
  {
    if b < DIRECT_BLOCK then Direct(b)
    else if b - DIRECT_BLOCK < BLOCK_INDEXES then SingleData(b - DIRECT_BLOCK)
    else
      var k := b - DIRECT_BLOCK - BLOCK_INDEXES;
      DoubleData(k / BLOCK_INDEXES, k % BLOCK_INDEXES)
  }

  lemma PosOfInjective(b: nat, c: nat)
    requires b < TOTAL_BLOCK && c < TOTAL_BLOCK && PosOf(b) == PosOf(c)
    ensures b == c
  {}

  // ---------- index blocks ----------

  function Entry(b: Block, i: Index): Word {
    (b[2 * i] as int) + 256 * (b[2 * i + 1] as int)
  }

  function SetEntry(b: Block, i: Index, z: Word): Block {
    b[2 * i := (z % 256) as Byte][2 * i + 1 := (z / 256) as Byte]
  }

  lemma SetEntryGet(b: Block, i: Index, z: Word, k: Index)
    ensures Entry(SetEntry(b, i, z), k) == if k == i then z else Entry(b, k)
  {}

  predicate ZeroIndex(b: Block) {
    forall i: Index :: Entry(b, i) == 0
  }

  // ---------- volumes ----------

  datatype Inode = Inode(size: nat, zone: seq<Word>)

  /** A mounted volume: its inodes, its blocks, the zones marked in the bitmap, and the bounds of the data area. */
  datatype Volume = Volume(inodes: map<nat, Inode>, disk: seq<Block>, used: set<nat>, first: nat, zones: nat)

  ghost predicate Shaped(v: Volume) {
    && |v.disk| == DISK_BLOCKS
    && 0 < v.first && v.zones <= DISK_BLOCKS
    && forall n | n in v.inodes :: |v.inodes[n].zone| == ZONE_SLOTS && v.inodes[n].size <= BLOCK_SIZE * TOTAL_BLOCK
  }

  /** The zone number held at position p of inode n; 0 where nothing is held or there is no index block to look in. */
  function ZoneAt(v: Volume, n: nat, p: Pos): Word
    requires Shaped(v) && n in v.inodes
    decreases p.Depth()
  {
    if p.Root() then v.inodes[n].zone[p.Place()]
    else
      var y := ZoneAt(v, n, p.Parent());
      if y == 0 then 0 else Entry(v.disk[y], p.Place())
  }

  /** An empty slot stays empty below. */
  lemma {:induction false} EmptyBelow(v: Volume, n: nat, p: Pos, q: Pos)
    requires Shaped(v) && n in v.inodes && p.Above(q) && ZoneAt(v, n, p) == 0
    ensures ZoneAt(v, n, q) == 0
    decreases q.Depth()
  {
    if p != q {
      EmptyBelow(v, n, p, q.Parent());
    }
  }

  /** Every zone held anywhere is a marked data zone. */
  ghost predicate Marked(v: Volume)
    requires Shaped(v)
  {
    forall n, p: Pos | n in v.inodes && ZoneAt(v, n, p) != 0 ::
      ZoneAt(v, n, p) in v.used && v.first <= ZoneAt(v, n, p) < v.zones
  }

  /** No zone is held twice, whatever the inodes and whatever the roles. */
  ghost predicate NoSharing(v: Volume)
    requires Shaped(v)
  {
    forall n, p: Pos, m, q: Pos | n in v.inodes && m in v.inodes && ZoneAt(v, n, p) == ZoneAt(v, m, q) != 0 ::
      n == m && p == q
  }

  ghost predicate Sound(v: Volume) {
    Shaped(v) && Marked(v) && NoSharing(v)
  }

  /** No marked data zone is lost: each one is held somewhere. */
  ghost predicate NoLeaks(v: Volume)
    requires Shaped(v)
  {
    forall z | z in v.used && z >= v.first :: exists n, p: Pos :: n in v.inodes && ZoneAt(v, n, p) == z
  }

  /** A fresh zone z may be put at position p: the slot exists and is empty. */
  ghost predicate Attachable(v: Volume, n: nat, p: Pos, z: Word)
    requires Shaped(v)
  {
    && n in v.inodes
    && ZoneAt(v, n, p) == 0
    && (!p.Root() ==> ZoneAt(v, n, p.Parent()) != 0)
    && v.first <= z < v.zones && z !in v.used
  }

  /** Store z in the slot and mark it. */
  function Attach(v: Volume, n: nat, p: Pos, z: Word): Volume
    requires Shaped(v) && n in v.inodes
  {
    var v1 := if p.Root() then
                v.(inodes := v.inodes[n := v.inodes[n].(zone := v.inodes[n].zone[p.Place() := z])])
              else
                var y := ZoneAt(v, n, p.Parent());
                v.(disk := v.disk[y := SetEntry(v.disk[y], p.Place(), z)]);
    v1.(used := v1.used + {z})
  }

  /** What the assignment does to one slot of one inode, by its distance from the root. */
  lemma {:induction false} AttachAt(v: Volume, n: nat, p: Pos, z: Word, m: nat, q: Pos)
    requires Sound(v) && Attachable(v, n, p, z) && m in v.inodes
    ensures Shaped(Attach(v, n, p, z))
    ensures m == n && q == p ==> ZoneAt(Attach(v, n, p, z), m, q) == z
    ensures ZoneAt(v, m, q) != 0 || !(m == n && p.Above(q)) ==>
              ZoneAt(Attach(v, n, p, z), m, q) == ZoneAt(v, m, q)
    decreases q.Depth()
  {
    var v' := Attach(v, n, p, z);
    if !q.Root() {
      AttachAt(v, n, p, z, m, q.Parent());
      var y := ZoneAt(v, m, q.Parent());
      if y != 0 && !p.Root() && y == ZoneAt(v, n, p.Parent()) {
        assert m == n && q.Parent() == p.Parent();
        SetEntryGet(v.disk[y], p.Place(), z, q.Place());
        if q.Place() == p.Place() {
          PosByParentAndPlace(p, q);
        }
      }
    } else if p.Root() && m == n && p.Place() == q.Place() {
      PosByParentAndPlace(p, q);
    }
  }

  /** With an empty index block, exactly one slot of the whole volume changes. */
  lemma {:induction false} AttachChangesOneSlot(v: Volume, n: nat, p: Pos, z: Word, m: nat, q: Pos)
    requires Sound(v) && Attachable(v, n, p, z) && m in v.inodes
    requires p.IsIndex() ==> ZeroIndex(v.disk[z])
    ensures Shaped(Attach(v, n, p, z))
    ensures ZoneAt(Attach(v, n, p, z), m, q) == if m == n && q == p then z else ZoneAt(v, m, q)
    decreases q.Depth()
  {
    AttachAt(v, n, p, z, m, q);
    if m == n && q != p && p.Above(q) {
      AttachChangesOneSlot(v, n, p, z, m, q.Parent());
      AboveIsIndex(p, q);
      var v' := Attach(v, n, p, z);
      if q.Parent() == p {
        assert v'.disk[z] == v.disk[z];
      }
    }
  }

  lemma AboveIsIndex(p: Pos, q: Pos)
    requires p != q && p.Above(q)
    ensures p.IsIndex() && !q.Root()
    decreases q.Depth()
  {
    if q.Parent() != p {
      AboveIsIndex(p, q.Parent());
    }
  }

  lemma AttachKeepsSound(v: Volume, n: nat, p: Pos, z: Word)
    requires Sound(v) && Attachable(v, n, p, z)
    requires p.IsIndex() ==> ZeroIndex(v.disk[z])
    ensures Sound(Attach(v, n, p, z))
  {
    var v' := Attach(v, n, p, z);
    AttachAt(v, n, p, z, n, p);
    forall m, q: Pos | m in v.inodes
      ensures ZoneAt(v', m, q) == if m == n && q == p then z else ZoneAt(v, m, q)
    {
      AttachChangesOneSlot(v, n, p, z, m, q);
    }
  }

  lemma AttachKeepsNoLeaks(v: Volume, n: nat, p: Pos, z: Word)
    requires Sound(v) && NoLeaks(v) && Attachable(v, n, p, z)
    requires p.IsIndex() ==> ZeroIndex(v.disk[z])
    ensures Shaped(Attach(v, n, p, z)) && NoLeaks(Attach(v, n, p, z))
  {
    var v' := Attach(v, n, p, z);
    AttachAt(v, n, p, z, n, p);
    forall y | y in v'.used && y >= v'.first
      ensures exists m, q: Pos :: m in v'.inodes && ZoneAt(v', m, q) == y
    {
      if y == z {
        assert ZoneAt(v', n, p) == y;
      } else {
        var m, q: Pos :| m in v.inodes && ZoneAt(v, m, q) == y;
        AttachChangesOneSlot(v, n, p, z, m, q);
        assert ZoneAt(v', m, q) == y;
      }
    }
  }

  /** Whatever the new index block happens to contain becomes the contents of the slots below it. */
  lemma StaleEntryIsHeld(v: Volume, n: nat, p: Pos, z: Word, k: Index)
    requires Sound(v) && Attachable(v, n, p, z) && p.IsIndex()
    ensures ZoneAt(v, n, p.Child(k)) == 0
    ensures Shaped(Attach(v, n, p, z))
    ensures ZoneAt(Attach(v, n, p, z), n, p.Child(k)) == Entry(v.disk[z], k)
  {
    var v' := Attach(v, n, p, z);
    AttachAt(v, n, p, z, n, p);
    var c := p.Child(k);
    assert c.Parent() == p && c.Place() == k;
    assert v'.disk[z] == v.disk[z];
  }

  /** A nonzero stale entry names a zone that is held elsewhere, or is not marked at all. */
  lemma StaleEntryBreaks(v: Volume, n: nat, p: Pos, z: Word, k: Index)
    requires Sound(v) && NoLeaks(v) && Attachable(v, n, p, z) && p.IsIndex()
    requires Entry(v.disk[z], k) != 0
    ensures !Sound(Attach(v, n, p, z))
  {
    var v' := Attach(v, n, p, z);
    var e := Entry(v.disk[z], k);
    StaleEntryIsHeld(v, n, p, z, k);
    AttachAt(v, n, p, z, n, p);
    assert ZoneAt(v', n, p.Child(k)) == e;
    if e == z {
      assert p != p.Child(k);
      assert !NoSharing(v');
    } else if e in v.used && e >= v.first {
      var m, q: Pos :| m in v.inodes && ZoneAt(v, m, q) == e;
      AttachAt(v, n, p, z, m, q);
      assert m != n || q != p.Child(k);
      assert ZoneAt(v', m, q) == e;
      assert !NoSharing(v');
    } else {
      assert !Marked(v');
    }
  }

  /**
   * The allocator does not clear the zone it hands out. Taking a zone as an index block keeps zones
   * unshared and marked exactly when that zone happens to read as zeros.
   */
  lemma StaleIndexBlock(v: Volume, n: nat, p: Pos, z: Word)
    requires Sound(v) && NoLeaks(v) && Attachable(v, n, p, z) && p.IsIndex()
    ensures Sound(Attach(v, n, p, z)) <==> ZeroIndex(v.disk[z])
  {
    if ZeroIndex(v.disk[z]) {
      AttachKeepsSound(v, n, p, z);
    } else {
      var k: Index :| Entry(v.disk[z], k) != 0;
      StaleEntryBreaks(v, n, p, z, k);
    }
  }

  // ---------- what growing a file by some zones may change ----------

  /**
   * v' comes from v by filling empty slots on the way to position p of inode n with fresh zones.
   * Nothing already held moves, and no block that holds file data or is still free is written.
   */
  ghost predicate Grown(v: Volume, v': Volume, n: nat, p: Pos) {
    && Shaped(v) && Shaped(v') && n in v.inodes
    && v'.inodes.Keys == v.inodes.Keys && v'.first == v.first && v'.zones == v.zones
    && v.used <= v'.used
    && (forall m | m in v.inodes :: v'.inodes[m].size == v.inodes[m].size)
    && (forall m, q: Pos | m in v.inodes && (ZoneAt(v, m, q) != 0 || !(m == n && q.Above(p))) ::
          ZoneAt(v', m, q) == ZoneAt(v, m, q))
    && (forall m, q: Pos | m in v.inodes && ZoneAt(v, m, q) != 0 && !q.IsIndex() ::
          v'.disk[ZoneAt(v, m, q)] == v.disk[ZoneAt(v, m, q)])
    && (forall z: nat | z < DISK_BLOCKS && z !in v'.used :: v'.disk[z] == v.disk[z])
  }

  lemma GrownAttach(v0: Volume, v: Volume, n: nat, target: Pos, p: Pos, z: Word)
    requires Grown(v0, v, n, target) && Sound(v) && p.Above(target)
    requires Attachable(v, n, p, z)
    requires p.IsIndex() ==> ZeroIndex(v.disk[z])
    ensures Grown(v0, Attach(v, n, p, z), n, target)
  {
    var v' := Attach(v, n, p, z);
    forall m, q: Pos | m in v.inodes
      ensures Shaped(v') && ZoneAt(v', m, q) == if m == n && q == p then z else ZoneAt(v, m, q)
    {
      AttachChangesOneSlot(v, n, p, z, m, q);
    }
    AttachAt(v, n, p, z, n, p);
  }
}
