/**
 * Filling a slot takes two steps when balloc sleeps in its disk write: a zone is marked for the slot, and later stored
 * in the block the walk remembers, whatever has become of the slot and of that block.
 */
module ZoneClaims {
  import opened BlockMapping
  import opened BlockTree

  /** Slot p of inode n, looked up in index block y, or in the inode itself if p is one of its own slots. */
  datatype Claim = Claim(n: nat, p: Pos, y: Word)

  ghost predicate ClaimOk(v: Volume, c: Claim) {
    c.n in v.inodes && (!c.p.Root() ==> c.y != 0)
  }

  /** The first step. */
  function Reserved(v: Volume, z: Word): Volume {
    v.(used := v.used + {z})
  }

  /** The second step. */
  function Stored(v: Volume, c: Claim, z: Word): Volume
    requires Shaped(v) && c.n in v.inodes
  {
    if c.p.Root() then
      v.(inodes := v.inodes[c.n := v.inodes[c.n].(zone := v.inodes[c.n].zone[c.p.Place() := z])])
    else
      v.(disk := v.disk[c.y := SetEntry(v.disk[c.y], c.p.Place(), z)])
  }

  /** The zones of r are marked and nobody holds them; every other marked data zone is held. */
  ghost predicate Pending(v: Volume, r: set<nat>)
    requires Shaped(v)
  {
    && (forall z | z in r :: v.first <= z < v.zones && z in v.used)
    && (forall n, p: Pos | n in v.inodes :: ZoneAt(v, n, p) !in r)
    && (forall z | z in v.used && z >= v.first && z !in r :: exists n, p: Pos :: n in v.inodes && ZoneAt(v, n, p) == z)
  }

  lemma NothingPending(v: Volume)
    requires Shaped(v)
    ensures Pending(v, {}) <==> NoLeaks(v)
  {}

  /** Marks do not move zones. */
  lemma {:induction false} MarksMoveNothing(v: Volume, marks: set<nat>, n: nat, p: Pos)
    requires Shaped(v) && n in v.inodes
    ensures ZoneAt(v.(used := marks), n, p) == ZoneAt(v, n, p)
    decreases p.Depth()
  {
    if !p.Root() {
      MarksMoveNothing(v, marks, n, p.Parent());
    }
  }

  lemma ReservedPending(v: Volume, r: set<nat>, z: Word)
    requires Sound(v) && Pending(v, r) && z in FreeZones(v)
    ensures Sound(Reserved(v, z)) && Pending(Reserved(v, z), r + {z})
  {
    var v' := Reserved(v, z);
    forall n, p: Pos | n in v.inodes
      ensures ZoneAt(v', n, p) == ZoneAt(v, n, p)
    {
      MarksMoveNothing(v, v'.used, n, p);
    }
    forall y | y in v'.used && y >= v'.first && y !in r + {z}
      ensures exists n, p: Pos :: n in v'.inodes && ZoneAt(v', n, p) == y
    {
      var n, p: Pos :| n in v.inodes && ZoneAt(v, n, p) == y;
      assert ZoneAt(v', n, p) == y;
    }
  }

  // ---------- the second step ----------

  /** The block looked in is still the one that holds the slot, and the slot is still empty. */
  ghost predicate Fits(v: Volume, c: Claim)
    requires Shaped(v) && ClaimOk(v, c)
  {
    (c.p.Root() || ZoneAt(v, c.n, c.p.Parent()) == c.y) && ZoneAt(v, c.n, c.p) == 0
  }

  /** The volume is sound, the slot holds the zone, and no zone but those reserved for other slots is lost. */
  ghost predicate StoredRight(v': Volume, c: Claim, z: Word, rest: set<nat>) {
    Sound(v') && Pending(v', rest) && c.n in v'.inodes && ZoneAt(v', c.n, c.p) == z
  }

  /** A store into the slot's own block: what was below the slot is out of reach. */
  lemma {:induction false} StoredAt(v: Volume, r: set<nat>, c: Claim, z: Word, m: nat, q: Pos)
    requires Sound(v) && Pending(v, r) && z in r && ClaimOk(v, c) && m in v.inodes
    requires (!c.p.Root() ==> ZoneAt(v, c.n, c.p.Parent()) == c.y) && (c.p.IsIndex() ==> ZeroIndex(v.disk[z]))
    ensures Shaped(Stored(v, c, z))
    ensures ZoneAt(Stored(v, c, z), m, q) ==
              if m == c.n && q == c.p then z else if m == c.n && c.p.Above(q) then 0 else ZoneAt(v, m, q)
    decreases q.Depth()
  {
    var n, p := c.n, c.p;
    if q.Root() {
      if p.Root() && m == n && p.Place() == q.Place() {
        PosByParentAndPlace(p, q);
      }
    } else {
      StoredAt(v, r, c, z, m, q.Parent());
      StoredEntry(v, c, z, if m == n && q.Parent() == p then z else ZoneAt(v, m, q.Parent()), q.Place());
      if !p.Root() && m == n && q.Parent() == p.Parent() && q.Place() == p.Place() {
        PosByParentAndPlace(p, q);
      }
      if q == p {
        ParentNotBelow(p);
      }
    }
  }

  lemma ParentNotBelow(p: Pos)
    requires !p.Root()
    ensures !p.Above(p.Parent())
  {}

  /** One entry of one block changes at most. */
  lemma StoredEntry(v: Volume, c: Claim, z: Word, x: Word, i: Index)
    requires Shaped(v) && c.n in v.inodes
    ensures Entry(Stored(v, c, z).disk[x], i) ==
              if !c.p.Root() && x == c.y && i == c.p.Place() then z else Entry(v.disk[x], i)
  {
    if !c.p.Root() {
      SetEntryGet(v.disk[c.y], c.p.Place(), z, i);
    }
  }

  lemma StoreFitting(v: Volume, r: set<nat>, c: Claim, z: Word)
    requires Sound(v) && Pending(v, r) && z in r && ClaimOk(v, c) && Fits(v, c)
    requires c.p.IsIndex() ==> ZeroIndex(v.disk[z])
    ensures StoredRight(Stored(v, c, z), c, z, r - {z})
  {
    var v' := Stored(v, c, z);
    StoredAt(v, r, c, z, c.n, c.p);
    forall m, q: Pos | m in v.inodes
      ensures ZoneAt(v', m, q) == if m == c.n && q == c.p then z else ZoneAt(v, m, q)
    {
      StoredAt(v, r, c, z, m, q);
      if m == c.n && c.p.Above(q) {
        EmptyBelow(v, c.n, c.p, q);
      }
    }
    forall y | y in v'.used && y >= v'.first && y !in r - {z}
      ensures exists m, q: Pos :: m in v'.inodes && ZoneAt(v', m, q) == y
    {
      if y == z {
        assert ZoneAt(v', c.n, c.p) == y;
      } else {
        var m, q: Pos :| m in v.inodes && ZoneAt(v, m, q) == y;
        assert ZoneAt(v', m, q) == y;
      }
    }
  }

  /** If the slot holds the zone afterwards and nothing is shared, the store went into the slot's own block. */
  lemma StoredInParent(v: Volume, r: set<nat>, c: Claim, z: Word)
    requires Sound(v) && Pending(v, r) && z in r && ClaimOk(v, c) && !c.p.Root()
    requires var v' := Stored(v, c, z); Sound(v') && ZoneAt(v', c.n, c.p) == z
    ensures ZoneAt(v, c.n, c.p.Parent()) == c.y
  {
    var v' := Stored(v, c, z);
    var q := c.p.Parent();
    StoredEntry(v, c, z, ZoneAt(v', c.n, q), c.p.Place());
    if !q.Root() {
      var x := ZoneAt(v, c.n, q.Parent());
      assert ZoneAt(v', c.n, q.Parent()) == x;
      StoredEntry(v, c, z, x, q.Place());
      assert ZoneAt(v', c.n, q) == ZoneAt(v', c.n, c.p) ==> q == c.p;
    }
    assert ZoneAt(v, c.n, c.p) != z;
  }

  /** A zone that the slot held is held by nobody once another is stored there. */
  lemma StoredOverFull(v: Volume, r: set<nat>, c: Claim, z: Word)
    requires Sound(v) && Pending(v, r) && z in r && ClaimOk(v, c) && ZoneAt(v, c.n, c.p) != 0
    requires (!c.p.Root() ==> ZoneAt(v, c.n, c.p.Parent()) == c.y) && (c.p.IsIndex() ==> ZeroIndex(v.disk[z]))
    ensures Shaped(Stored(v, c, z)) && !Pending(Stored(v, c, z), r - {z})
  {
    var v' := Stored(v, c, z);
    var y := ZoneAt(v, c.n, c.p);
    StoredAt(v, r, c, z, c.n, c.p);
    forall m, q: Pos | m in v'.inodes
      ensures ZoneAt(v', m, q) != y
    {
      StoredAt(v, r, c, z, m, q);
      assert ZoneAt(v, m, q) == y ==> m == c.n && q == c.p;
    }
    assert y in v'.used && y >= v'.first && y !in r - {z};
  }

  /**
   * A zone that reads as zeros if it is to be an index block gets where it should, and none is lost or shared, if and only if
   * the block the walk remembers is still the one that holds the slot, and the slot is still empty.
   */
  lemma StoreExact(v: Volume, r: set<nat>, c: Claim, z: Word)
    requires Sound(v) && Pending(v, r) && z in r && ClaimOk(v, c)
    requires c.p.IsIndex() ==> ZeroIndex(v.disk[z])
    ensures StoredRight(Stored(v, c, z), c, z, r - {z}) <==> Fits(v, c)
  {
    hide Marked, NoSharing, Pending;
    if Fits(v, c) {
      StoreFitting(v, r, c, z);
    } else if StoredRight(Stored(v, c, z), c, z, r - {z}) {
      if !c.p.Root() {
        StoredInParent(v, r, c, z);
      }
      StoredOverFull(v, r, c, z);
    }
  }
}
