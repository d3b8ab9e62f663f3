/** What freeing the zones of one file does to a volume. */
module Truncation {
  import opened BlockTree
  import opened FileContents

  /** Zone z is held at p or somewhere below it. */
  ghost predicate HeldUnder(v: Volume, n: nat, p: Pos, z: nat)
    requires Shaped(v) && n in v.inodes
  {
    z != 0 && exists q: Pos :: p.Above(q) && ZoneAt(v, n, q) == z
  }

  /** The zones held at p and below it. */
  ghost function Tree(v: Volume, n: nat, p: Pos): set<nat>
    requires Shaped(v) && n in v.inodes
  {
    set z: nat | z < DISK_BLOCKS && HeldUnder(v, n, p, z)
  }

  ghost predicate HeldBy(v: Volume, n: nat, z: nat)
    requires Shaped(v) && n in v.inodes
  {
    z != 0 && exists q: Pos :: ZoneAt(v, n, q) == z
  }

  /** All zones of inode n. */
  ghost function Held(v: Volume, n: nat): set<nat>
    requires Shaped(v) && n in v.inodes
  {
    set z: nat | z < DISK_BLOCKS && HeldBy(v, n, z)
  }

  /** How many levels of index blocks there are from p down. */
  function Height(p: Pos): nat {
    match p
    case Double => 2
    case Single => 1
    case DoubleIndex(_) => 1
    case _ => 0
  }

  lemma EmptyTree(v: Volume, n: nat, p: Pos)
    requires Shaped(v) && n in v.inodes && ZoneAt(v, n, p) == 0
    ensures Tree(v, n, p) == {}
  {
    forall q: Pos | p.Above(q)
      ensures ZoneAt(v, n, q) == 0
    {
      EmptyBelow(v, n, p, q);
    }
  }

  lemma HeldInRange(v: Volume, n: nat, p: Pos)
    requires Sound(v) && n in v.inodes && ZoneAt(v, n, p) != 0
    ensures v.first <= ZoneAt(v, n, p) < v.zones
    ensures ZoneAt(v, n, p) as nat in Tree(v, n, p)
  {
    assert p.Above(p);
  }

  lemma LeafTree(v: Volume, n: nat, p: Pos)
    requires Shaped(v) && n in v.inodes && !p.IsIndex() && ZoneAt(v, n, p) != 0
    ensures Tree(v, n, p) == {ZoneAt(v, n, p) as nat}
  {
    forall q: Pos | p.Above(q)
      ensures q == p
    {
      if q != p {
        AboveIsIndex(p, q);
      }
    }
    assert p.Above(p);
  }

  /** No slot lies below its own child. */
  lemma {:induction false} AboveIsHigher(p: Pos, q: Pos)
    requires p.Above(q)
    ensures p.Depth() <= q.Depth()
    decreases q.Depth()
  {
    if p != q {
      AboveIsHigher(p, q.Parent());
    }
  }

  lemma ChildNotAbove(p: Pos, j: Index)
    requires p.IsIndex()
    ensures !p.Child(j).Above(p)
  {
    if p.Child(j).Above(p) {
      AboveIsHigher(p.Child(j), p);
    }
  }

  /** A slot below p lies below exactly one child of p. */
  lemma OneChild(p: Pos, q: Pos) returns (k: Index)
    requires p.Above(q) && p != q
    ensures p.IsIndex() && p.Child(k).Above(q)
    ensures forall j: Index :: p.Child(j).Above(q) ==> j == k
    decreases q.Depth()
  {
    AboveIsIndex(p, q);
    if q.Parent() == p {
      k := q.Place();
      assert p.Child(k) == q;
      forall j: Index | p.Child(j).Above(q)
        ensures j == k
      {
        ChildNotAbove(p, j);
      }
    } else {
      k := OneChild(p, q.Parent());
    }
  }

  lemma ChildAbove(p: Pos, k: Index, q: Pos)
    requires p.IsIndex() && p.Child(k).Above(q)
    ensures p.Above(q) && p != q
    decreases q.Depth()
  {
    if p.Child(k) != q {
      ChildAbove(p, k, q.Parent());
    } else {
      assert q.Parent() == p;
    }
  }

  /** The zones below the first i children of p. */
  ghost function ChildTrees(v: Volume, n: nat, p: Pos, i: nat): set<nat>
    requires Shaped(v) && n in v.inodes && p.IsIndex() && i <= BLOCK_INDEXES
  {
    if i == 0 then {} else ChildTrees(v, n, p, i - 1) + Tree(v, n, p.Child(i - 1))
  }

  lemma {:induction false} InChildTrees(v: Volume, n: nat, p: Pos, i: nat, z: nat)
    requires Shaped(v) && n in v.inodes && p.IsIndex() && i <= BLOCK_INDEXES
    ensures z in ChildTrees(v, n, p, i) <==> exists k: Index :: k < i && z in Tree(v, n, p.Child(k))
  {
    if i > 0 {
      InChildTrees(v, n, p, i - 1, z);
    }
  }

  /** The tree at p is its own zone and the trees of its children. */
  lemma TreeByChildren(v: Volume, n: nat, p: Pos)
    requires Shaped(v) && n in v.inodes && p.IsIndex() && ZoneAt(v, n, p) != 0
    ensures Tree(v, n, p) == ChildTrees(v, n, p, BLOCK_INDEXES) + {ZoneAt(v, n, p) as nat}
  {
    forall z: nat
      ensures z in Tree(v, n, p) <==> z in ChildTrees(v, n, p, BLOCK_INDEXES) + {ZoneAt(v, n, p) as nat}
    {
      InChildTrees(v, n, p, BLOCK_INDEXES, z);
      if z in Tree(v, n, p) && z != ZoneAt(v, n, p) {
        var q: Pos :| p.Above(q) && ZoneAt(v, n, q) == z;
        var k := OneChild(p, q);
        assert z in Tree(v, n, p.Child(k));
      }
      if z in ChildTrees(v, n, p, BLOCK_INDEXES) {
        var k: Index :| z in Tree(v, n, p.Child(k));
        var q: Pos :| p.Child(k).Above(q) && ZoneAt(v, n, q) == z;
        ChildAbove(p, k, q);
      }
      assert p.Above(p);
    }
  }

  lemma ChildTreeInTree(v: Volume, n: nat, p: Pos, k: Index)
    requires Shaped(v) && n in v.inodes && p.IsIndex()
    ensures Tree(v, n, p.Child(k)) <= Tree(v, n, p)
  {
    forall z | z in Tree(v, n, p.Child(k))
      ensures z in Tree(v, n, p)
    {
      var q: Pos :| p.Child(k).Above(q) && ZoneAt(v, n, q) == z;
      ChildAbove(p, k, q);
    }
  }

  lemma {:induction false} ChildTreesGrow(v: Volume, n: nat, p: Pos, i: nat, j: nat)
    requires Shaped(v) && n in v.inodes && p.IsIndex() && i <= j <= BLOCK_INDEXES
    ensures ChildTrees(v, n, p, i) <= ChildTrees(v, n, p, j)
    decreases j
  {
    if i < j {
      ChildTreesGrow(v, n, p, i, j - 1);
    }
  }

  /** The next child's tree is still untouched when the earlier ones have been freed, and so is p's own zone. */
  lemma {:induction false} NextChildDisjoint(v: Volume, n: nat, p: Pos, i: nat)
    requires Sound(v) && n in v.inodes && p.IsIndex() && ZoneAt(v, n, p) != 0 && i <= BLOCK_INDEXES
    ensures i < BLOCK_INDEXES ==> ChildTrees(v, n, p, i) !! Tree(v, n, p.Child(i))
    ensures ZoneAt(v, n, p) as nat !in ChildTrees(v, n, p, i)
  {
    forall z | z in ChildTrees(v, n, p, i)
      ensures i < BLOCK_INDEXES ==> z !in Tree(v, n, p.Child(i))
      ensures z != ZoneAt(v, n, p)
    {
      InChildTrees(v, n, p, i, z);
      var k: Index :| k < i && z in Tree(v, n, p.Child(k));
      var q: Pos :| p.Child(k).Above(q) && ZoneAt(v, n, q) == z;
      ChildAbove(p, k, q);
      if i < BLOCK_INDEXES && z in Tree(v, n, p.Child(i)) {
        var q': Pos :| p.Child(i).Above(q') && ZoneAt(v, n, q') == z;
        assert q == q';
        var c := OneChild(p, q);
      }
    }
  }

  // ---------- the nine slots of the inode ----------

  function RootPos(k: nat): (p: Pos)
    requires k < ZONE_SLOTS
    ensures p.Root() && p.Place() == k
  {
    if k < DIRECT_BLOCK then Direct(k) else if k == DIRECT_BLOCK then Single else Double
  }

  /** The zones below the first k slots of the inode. */
  ghost function RootTrees(v: Volume, n: nat, k: nat): set<nat>
    requires Shaped(v) && n in v.inodes && k <= ZONE_SLOTS
  {
    if k == 0 then {} else RootTrees(v, n, k - 1) + Tree(v, n, RootPos(k - 1))
  }

  lemma {:induction false} InRootTrees(v: Volume, n: nat, k: nat, z: nat)
    requires Shaped(v) && n in v.inodes && k <= ZONE_SLOTS
    ensures z in RootTrees(v, n, k) <==> exists j: nat :: j < k && z in Tree(v, n, RootPos(j))
  {
    if k > 0 {
      InRootTrees(v, n, k - 1, z);
    }
  }

  /** Every slot lies below exactly one of the nine. */
  lemma OneRoot(q: Pos) returns (k: nat)
    ensures k < ZONE_SLOTS && RootPos(k).Above(q)
    ensures forall j: nat | j < ZONE_SLOTS && RootPos(j).Above(q) :: j == k
    decreases q.Depth()
  {
    if q.Root() {
      k := q.Place();
      PosByParentAndPlace(q, RootPos(k));
      forall j: nat | j < ZONE_SLOTS && RootPos(j).Above(q)
        ensures j == k
      {
        assert RootPos(j) == q;
      }
    } else {
      k := OneRoot(q.Parent());
      assert forall j: nat | j < ZONE_SLOTS :: RootPos(j).Above(q) <==> RootPos(j).Above(q.Parent());
    }
  }

  lemma RootTreesAreHeld(v: Volume, n: nat)
    requires Shaped(v) && n in v.inodes
    ensures RootTrees(v, n, ZONE_SLOTS) == Held(v, n)
  {
    forall z: nat
      ensures z in RootTrees(v, n, ZONE_SLOTS) <==> z in Held(v, n)
    {
      InRootTrees(v, n, ZONE_SLOTS, z);
      if z in Held(v, n) {
        var q: Pos :| ZoneAt(v, n, q) == z;
        var k := OneRoot(q);
        assert z in Tree(v, n, RootPos(k));
      }
    }
  }

  lemma RootTreeHeld(v: Volume, n: nat, k: nat)
    requires Shaped(v) && n in v.inodes && k < ZONE_SLOTS
    ensures Tree(v, n, RootPos(k)) <= Held(v, n)
  {}

  lemma ReservedNotHeld(v: Volume, n: nat)
    requires Sound(v) && n in v.inodes
    ensures v.first - 1 !in Held(v, n)
  {}

  lemma NextRootDisjoint(v: Volume, n: nat, k: nat)
    requires Sound(v) && n in v.inodes && k < ZONE_SLOTS
    ensures RootTrees(v, n, k) !! Tree(v, n, RootPos(k))
    ensures Tree(v, n, RootPos(k)) <= v.used
  {
    forall z | z in RootTrees(v, n, k)
      ensures z !in Tree(v, n, RootPos(k))
    {
      InRootTrees(v, n, k, z);
      var j: nat :| j < k && z in Tree(v, n, RootPos(j));
      var q: Pos :| RootPos(j).Above(q) && ZoneAt(v, n, q) == z;
      var c := OneRoot(q);
    }
  }

  /** The zone array once its first k slots are cleared. */
  function Cleared(zone: seq<Word>, k: nat): seq<Word>
    requires |zone| == ZONE_SLOTS && k <= ZONE_SLOTS
  {
    NoZones()[..k] + zone[k..]
  }

  lemma ClearedNext(zone: seq<Word>, k: nat)
    requires |zone| == ZONE_SLOTS && k < ZONE_SLOTS
    ensures Cleared(zone, k)[k := 0] == Cleared(zone, k + 1)
  {}

  lemma NothingCleared(v: Volume, n: nat)
    requires Shaped(v) && n in v.inodes
    ensures v.inodes == v.inodes[n := v.inodes[n].(zone := Cleared(v.inodes[n].zone, 0))]
    ensures RootTrees(v, n, 0) == {} && v.used == v.used - RootTrees(v, n, 0)
  {
    assert Cleared(v.inodes[n].zone, 0) == v.inodes[n].zone;
  }

  // ---------- the truncated volume ----------

  function NoZones(): seq<Word> {
    [0, 0, 0, 0, 0, 0, 0, 0, 0]
  }

  ghost function Truncated(v: Volume, n: nat): Volume
    requires Shaped(v) && n in v.inodes
  {
    v.(inodes := v.inodes[n := Inode(0, NoZones())], used := v.used - Held(v, n))
  }

  lemma {:induction false} TruncatedZones(v: Volume, n: nat, m: nat, q: Pos)
    requires Shaped(v) && n in v.inodes && m in v.inodes
    ensures Shaped(Truncated(v, n))
    ensures ZoneAt(Truncated(v, n), m, q) == if m == n then 0 else ZoneAt(v, m, q)
    decreases q.Depth()
  {
    if !q.Root() {
      TruncatedZones(v, n, m, q.Parent());
    }
  }

  /** Truncating keeps the volume sound and free of leaks, and no other file notices. */
  lemma TruncatedKeeps(v: Volume, n: nat)
    requires Sound(v) && n in v.inodes
    ensures Sound(Truncated(v, n))
    ensures NoLeaks(v) ==> NoLeaks(Truncated(v, n))
    ensures forall m | m in v.inodes && m != n :: Contents(Truncated(v, n), m) == Contents(v, m)
    ensures Contents(Truncated(v, n), n) == []
  {
    var v' := Truncated(v, n);
    TruncatedZones(v, n, n, Single);
    forall m, q: Pos | m in v.inodes
      ensures ZoneAt(v', m, q) == if m == n then 0 else ZoneAt(v, m, q)
    {
      TruncatedZones(v, n, m, q);
    }
    assert Marked(v') && NoSharing(v');
    if NoLeaks(v) {
      forall z | z in v'.used && z >= v'.first
        ensures exists m, q: Pos :: m in v'.inodes && ZoneAt(v', m, q) == z
      {
        var m, q: Pos :| m in v.inodes && ZoneAt(v, m, q) == z;
        assert m != n;
        assert ZoneAt(v', m, q) == z;
      }
    }
  }
}
