/**
 * Processes fill slots and empty them on one volume at a time of their own: each call on the allocator may sleep between
 * marking a zone and storing it, and between freeing the zones of a slot and clearing the slot.
 */
module ZoneRuns {
  import opened BlockMapping
  import opened Blocks
  import opened BlockTree
  import opened Truncation
  import opened ZoneClaims

  /** Slot number k of inode n. */
  datatype RootSlot = RootSlot(n: nat, k: nat)

  /** claims: the zones marked but not stored yet. emptying: the slots being truncated. owed: their zones still to be freed. */
  datatype State = State(v: Volume, claims: map<Word, Claim>, emptying: set<RootSlot>, owed: set<nat>)

  /** Take: a walk finds slot p empty in index block y, which it read earlier, or in the inode, and marks a zone for it. */
  datatype Event =
    | Take(n: nat, p: Pos, y: Word)
    | Store(z: Word)
    | WriteData(z: Word, data: Block)
    | BeginEmpty(r: RootSlot)
    | Free(z: Word)
    | EndEmpty(r: RootSlot)

  ghost predicate SlotExists(v: Volume, r: RootSlot) {
    r.n in v.inodes && r.k < ZONE_SLOTS
  }

  function SlotOf(v: Volume, r: RootSlot): Word
    requires Shaped(v) && SlotExists(v, r)
  {
    v.inodes[r.n].zone[r.k]
  }

  function WithSlot(v: Volume, r: RootSlot, z: Word): Volume
    requires Shaped(v) && SlotExists(v, r)
  {
    v.(inodes := v.inodes[r.n := v.inodes[r.n].(zone := v.inodes[r.n].zone[r.k := z])])
  }

  function Freed(w: Volume, z: nat): Volume {
    w.(used := w.used - {z})
  }

  function DataWritten(w: Volume, z: Word, data: Block): Volume
    requires Shaped(w)
  {
    w.(disk := w.disk[z := data])
  }

  /** What the walk looks at says that the slot is empty. */
  ghost predicate LooksEmpty(v: Volume, c: Claim)
    requires Shaped(v) && ClaimOk(v, c)
  {
    if c.p.Root() then v.inodes[c.n].zone[c.p.Place()] == 0 else Entry(v.disk[c.y], c.p.Place()) == 0
  }

  ghost predicate Step(s: State, e: Event, s': State)
    requires Shaped(s.v)
  {
    match e
    case Take(n, p, y) =>
      var c := Claim(n, p, y);
      ClaimOk(s.v, c) && LooksEmpty(s.v, c) && FreeZones(s.v) != {}
      && s' == s.(v := Reserved(s.v, NextFree(s.v)), claims := s.claims[NextFree(s.v) := c])
    case Store(z) =>
      z in s.claims && s.claims[z].n in s.v.inodes
      && s' == s.(v := Stored(s.v, s.claims[z], z), claims := s.claims - {z})
    case WriteData(z, data) =>
      s' == s.(v := DataWritten(s.v, z, data))
    case BeginEmpty(r) =>
      SlotExists(s.v, r) && SlotOf(s.v, r) != 0
      && s' == s.(emptying := s.emptying + {r}, owed := s.owed + Tree(s.v, r.n, RootPos(r.k)))
    case Free(z) =>
      z in s.owed && s' == s.(v := Freed(s.v, z), owed := s.owed - {z})
    case EndEmpty(r) =>
      SlotExists(s.v, r) && r in s.emptying
      && s' == s.(v := WithSlot(s.v, r, 0), emptying := s.emptying - {r})
  }

  // ---------- the volume with the slots that are being emptied read as empty ----------

  function Seen(s: State, n: nat): Inode
    requires Shaped(s.v) && n in s.v.inodes
  {
    var i := s.v.inodes[n];
    Inode(i.size, seq(ZONE_SLOTS, (k: nat) requires k < ZONE_SLOTS => if RootSlot(n, k) in s.emptying then 0 else i.zone[k]))
  }

  ghost function View(s: State): (w: Volume)
    requires Shaped(s.v)
    ensures Shaped(w) && w.inodes.Keys == s.v.inodes.Keys
    ensures w.disk == s.v.disk && w.used == s.v.used && w.first == s.v.first && w.zones == s.v.zones
  {
    s.v.(inodes := map n | n in s.v.inodes :: Seen(s, n))
  }

  /** The slot of the inode above q. */
  function Top(q: Pos): (k: nat)
    ensures k < ZONE_SLOTS && RootPos(k).Above(q)
    decreases q.Depth()
  {
    if q.Root() then
      PosByParentAndPlace(q, RootPos(q.Place()));
      q.Place()
    else Top(q.Parent())
  }

  lemma TopOnly(q: Pos, k: nat)
    requires k < ZONE_SLOTS && RootPos(k).Above(q)
    ensures k == Top(q)
  {
    var j := OneRoot(q);
  }

  lemma {:induction false} ViewZones(s: State, n: nat, q: Pos)
    requires Shaped(s.v) && n in s.v.inodes
    ensures ZoneAt(View(s), n, q) == if RootSlot(n, Top(q)) in s.emptying then 0 else ZoneAt(s.v, n, q)
    decreases q.Depth()
  {
    if !q.Root() {
      ViewZones(s, n, q.Parent());
    }
  }

  // ---------- the invariant ----------

  ghost predicate Inv(s: State) {
    && Shaped(s.v) && Sound(View(s)) && Pending(View(s), s.claims.Keys + s.owed)
    && (forall z | z in s.claims :: z !in s.owed && ClaimOk(s.v, s.claims[z]))
    && (forall r | r in s.emptying :: SlotExists(s.v, r) && SlotOf(s.v, r) != 0)
  }

  /** A claim fits if its slot is not being emptied either. */
  ghost predicate ClaimFits(s: State, z: Word)
    requires Shaped(s.v) && z in s.claims && ClaimOk(s.v, s.claims[z])
  {
    var c := s.claims[z];
    Fits(View(s), c) && (c.p.Root() ==> RootSlot(c.n, c.p.Place()) !in s.emptying)
  }

  /** What nothing in the code tests. */
  ghost predicate Careful(s: State, e: Event)
    requires Shaped(s.v)
  {
    match e
    case Store(z) =>
      z in s.claims && ClaimOk(s.v, s.claims[z]) && ClaimFits(s, z) && (s.claims[z].p.IsIndex() ==> ZeroIndex(s.v.disk[z]))
    case WriteData(z, _) => forall n, p: Pos | n in s.v.inodes && p.IsIndex() :: ZoneAt(View(s), n, p) != z
    case BeginEmpty(r) => r !in s.emptying
    case _ => true
  }

  // ---------- each step, on the view ----------

  lemma ViewTake(s: State, z: Word, claims: map<Word, Claim>)
    requires Shaped(s.v)
    ensures View(s.(v := Reserved(s.v, z), claims := claims)) == Reserved(View(s), z)
  {
    assert View(s.(v := Reserved(s.v, z), claims := claims)).inodes == View(s).inodes;
  }

  lemma ViewStore(s: State, c: Claim, z: Word, claims: map<Word, Claim>)
    requires Shaped(s.v) && c.n in s.v.inodes
    ensures var w := View(s.(v := Stored(s.v, c, z), claims := claims));
            w == if c.p.Root() && RootSlot(c.n, c.p.Place()) in s.emptying then View(s) else Stored(View(s), c, z)
  {
    var s' := s.(v := Stored(s.v, c, z), claims := claims);
    var w := if c.p.Root() && RootSlot(c.n, c.p.Place()) in s.emptying then View(s) else Stored(View(s), c, z);
    forall n | n in s.v.inodes
      ensures Seen(s', n) == w.inodes[n]
    {
      assert Seen(s', n).zone == w.inodes[n].zone;
    }
    assert View(s').inodes == w.inodes;
  }

  lemma ViewBegin(s: State, r: RootSlot, owed: set<nat>)
    requires Shaped(s.v) && SlotExists(s.v, r)
    ensures View(s.(emptying := s.emptying + {r}, owed := owed)) == WithSlot(View(s), r, 0)
  {
    var s' := s.(emptying := s.emptying + {r}, owed := owed);
    var w := WithSlot(View(s), r, 0);
    forall n | n in s.v.inodes
      ensures Seen(s', n) == w.inodes[n]
    {
      assert Seen(s', n).zone == w.inodes[n].zone;
    }
    assert View(s').inodes == w.inodes;
  }

  lemma ViewEnd(s: State, r: RootSlot)
    requires Shaped(s.v) && SlotExists(s.v, r) && r in s.emptying
    ensures View(s.(v := WithSlot(s.v, r, 0), emptying := s.emptying - {r})) == View(s)
  {
    var s' := s.(v := WithSlot(s.v, r, 0), emptying := s.emptying - {r});
    forall n | n in s.v.inodes
      ensures Seen(s', n) == Seen(s, n)
    {
      assert Seen(s', n).zone == Seen(s, n).zone;
    }
    assert View(s').inodes == View(s).inodes;
  }

  // ---------- what emptying and writing do to a volume ----------

  lemma {:induction false} ClearedZones(w: Volume, r: RootSlot, m: nat, q: Pos)
    requires Shaped(w) && SlotExists(w, r) && m in w.inodes
    ensures ZoneAt(WithSlot(w, r, 0), m, q) == if m == r.n && Top(q) == r.k then 0 else ZoneAt(w, m, q)
    decreases q.Depth()
  {
    if !q.Root() {
      ClearedZones(w, r, m, q.Parent());
    }
  }

  /** What is held above the slot's tree stays, and what was held in it is in the tree alone. */
  lemma ClearedTree(w: Volume, r: RootSlot, m: nat, q: Pos)
    requires Shaped(w) && NoSharing(w) && SlotExists(w, r) && m in w.inodes
    ensures ZoneAt(WithSlot(w, r, 0), m, q) == if m == r.n && Top(q) == r.k then 0 else ZoneAt(w, m, q)
    ensures ZoneAt(WithSlot(w, r, 0), m, q) !in Tree(w, r.n, RootPos(r.k))
    ensures ZoneAt(w, m, q) != 0 && m == r.n && Top(q) == r.k ==> ZoneAt(w, m, q) as nat in Tree(w, r.n, RootPos(r.k))
  {
    ClearedZones(w, r, m, q);
    if ZoneAt(WithSlot(w, r, 0), m, q) in Tree(w, r.n, RootPos(r.k)) {
      var q': Pos :| RootPos(r.k).Above(q') && ZoneAt(w, r.n, q') == ZoneAt(WithSlot(w, r, 0), m, q);
      TopOnly(q', r.k);
    }
  }

  lemma TreeIsMarked(w: Volume, r: RootSlot)
    requires Sound(w) && SlotExists(w, r)
    ensures forall z | z in Tree(w, r.n, RootPos(r.k)) :: w.first <= z < w.zones && z in w.used
  {
    forall z | z in Tree(w, r.n, RootPos(r.k))
      ensures w.first <= z < w.zones && z in w.used
    {
      var q: Pos :| ZoneAt(w, r.n, q) == z;
    }
  }

  /** The zones below a slot that reads as empty are to be freed; nothing else changes. */
  lemma ClearedPending(w: Volume, pending: set<nat>, r: RootSlot)
    requires Sound(w) && Pending(w, pending) && SlotExists(w, r)
    ensures Sound(WithSlot(w, r, 0)) && Pending(WithSlot(w, r, 0), pending + Tree(w, r.n, RootPos(r.k)))
    ensures pending !! Tree(w, r.n, RootPos(r.k))
  {
    hide Tree;
    var w', tree := WithSlot(w, r, 0), Tree(w, r.n, RootPos(r.k));
    TreeIsMarked(w, r);
    forall m, q: Pos | m in w.inodes
      ensures ZoneAt(w', m, q) == if m == r.n && Top(q) == r.k then 0 else ZoneAt(w, m, q)
      ensures ZoneAt(w', m, q) !in tree
      ensures ZoneAt(w, m, q) != 0 && m == r.n && Top(q) == r.k ==> ZoneAt(w, m, q) as nat in tree
    {
      ClearedTree(w, r, m, q);
    }
    forall z | z in w'.used && z >= w'.first && z !in pending + tree
      ensures exists m, q: Pos :: m in w'.inodes && ZoneAt(w', m, q) == z
    {
      var m, q: Pos :| m in w.inodes && ZoneAt(w, m, q) == z;
      assert ZoneAt(w', m, q) == z;
    }
    TreeIsHeld(w, r, pending);
  }

  lemma TreeIsHeld(w: Volume, r: RootSlot, pending: set<nat>)
    requires Shaped(w) && Pending(w, pending) && SlotExists(w, r)
    ensures pending !! Tree(w, r.n, RootPos(r.k))
  {
    forall z | z in Tree(w, r.n, RootPos(r.k))
      ensures z !in pending
    {
      var q: Pos :| ZoneAt(w, r.n, q) == z;
    }
  }

  lemma FreedPending(w: Volume, pending: set<nat>, z: nat)
    requires Sound(w) && Pending(w, pending) && z in pending
    ensures Sound(Freed(w, z)) && Pending(Freed(w, z), pending - {z})
  {
    var w' := Freed(w, z);
    forall m, q: Pos | m in w.inodes
      ensures ZoneAt(w', m, q) == ZoneAt(w, m, q)
    {
      MarksMoveNothing(w, w'.used, m, q);
    }
    forall y | y in w'.used && y >= w'.first && y !in pending - {z}
      ensures exists m, q: Pos :: m in w'.inodes && ZoneAt(w', m, q) == y
    {
      var m, q: Pos :| m in w.inodes && ZoneAt(w, m, q) == y;
      assert ZoneAt(w', m, q) == y;
    }
  }

  lemma {:induction false} DataWrittenZones(w: Volume, z: Word, data: Block, m: nat, q: Pos)
    requires Shaped(w) && m in w.inodes && forall n, p: Pos | n in w.inodes && p.IsIndex() :: ZoneAt(w, n, p) != z
    ensures ZoneAt(DataWritten(w, z, data), m, q) == ZoneAt(w, m, q)
    decreases q.Depth()
  {
    if !q.Root() {
      DataWrittenZones(w, z, data, m, q.Parent());
      assert q.Parent().IsIndex();
    }
  }

  lemma DataWrittenPending(w: Volume, pending: set<nat>, z: Word, data: Block)
    requires Sound(w) && Pending(w, pending) && forall n, p: Pos | n in w.inodes && p.IsIndex() :: ZoneAt(w, n, p) != z
    ensures Sound(DataWritten(w, z, data)) && Pending(DataWritten(w, z, data), pending)
  {
    var w' := DataWritten(w, z, data);
    forall m, q: Pos | m in w.inodes
      ensures ZoneAt(w', m, q) == ZoneAt(w, m, q)
    {
      DataWrittenZones(w, z, data, m, q);
    }
    forall y | y in w'.used && y >= w'.first && y !in pending
      ensures exists m, q: Pos :: m in w'.inodes && ZoneAt(w', m, q) == y
    {
      var m, q: Pos :| m in w.inodes && ZoneAt(w, m, q) == y;
      assert ZoneAt(w', m, q) == y;
    }
  }

  // ---------- every run ----------

  lemma TakeKeeps(s: State, c: Claim, s': State)
    requires Inv(s) && Step(s, Take(c.n, c.p, c.y), s')
    ensures Inv(s')
  {
    hide Sound, Pending, View;
    var z := NextFree(s.v);
    ViewTake(s, z, s'.claims);
    assert FreeZones(View(s)) == FreeZones(s.v);
    ReservedPending(View(s), s.claims.Keys + s.owed, z);
    PendingMarked(View(s), s.claims.Keys + s.owed);
    assert s'.claims.Keys + s'.owed == s.claims.Keys + s.owed + {z};
  }

  lemma PendingMarked(v: Volume, pending: set<nat>)
    requires Shaped(v) && Pending(v, pending)
    ensures pending !! FreeZones(v)
  {}

  /** A store that fits leaves one zone fewer to be stored; one that does not leaves a slot without its zone, or loses one. */
  lemma StoreSteps(s: State, z: Word, s': State)
    requires Inv(s) && Step(s, Store(z), s')
    requires s.claims[z].p.IsIndex() ==> ZeroIndex(s.v.disk[z])
    ensures Shaped(s'.v)
    ensures StoredRight(View(s'), s.claims[z], z, s'.claims.Keys + s'.owed) <==> ClaimFits(s, z)
    ensures ClaimFits(s, z) ==> Inv(s')
  {
    hide Sound, View, NoSharing, Marked;
    var c, pending := s.claims[z], s.claims.Keys + s.owed;
    ViewStore(s, c, z, s'.claims);
    StoreExact(View(s), pending, c, z);
    assert s'.claims.Keys + s'.owed == pending - {z};
    if ClaimFits(s, z) && c.p.Root() {
      ViewZones(s, c.n, c.p);
    }
  }

  lemma BeginKeeps(s: State, r: RootSlot, s': State)
    requires Inv(s) && Step(s, BeginEmpty(r), s') && r !in s.emptying
    ensures Inv(s')
  {
    hide Sound, Pending, View, Tree;
    ViewBegin(s, r, s'.owed);
    ClearedPending(View(s), s.claims.Keys + s.owed, r);
    TreeSeen(s, r);
    assert s'.claims.Keys + s'.owed == s.claims.Keys + s.owed + Tree(s.v, r.n, RootPos(r.k));
  }

  lemma TreeSeen(s: State, r: RootSlot)
    requires Shaped(s.v) && SlotExists(s.v, r) && r !in s.emptying
    ensures Tree(View(s), r.n, RootPos(r.k)) == Tree(s.v, r.n, RootPos(r.k))
  {
    forall q: Pos | RootPos(r.k).Above(q)
      ensures ZoneAt(View(s), r.n, q) == ZoneAt(s.v, r.n, q)
    {
      TopOnly(q, r.k);
      ViewZones(s, r.n, q);
    }
  }

  lemma FreeKeeps(s: State, z: Word, s': State)
    requires Inv(s) && Step(s, Free(z), s')
    ensures Inv(s')
  {
    hide Sound, Pending;
    FreedPending(View(s), s.claims.Keys + s.owed, z);
    assert View(s') == Freed(View(s), z);
    assert s'.claims.Keys + s'.owed == s.claims.Keys + s.owed - {z};
  }

  lemma WriteKeeps(s: State, z: Word, data: Block, s': State)
    requires Inv(s) && Step(s, WriteData(z, data), s') && Careful(s, WriteData(z, data))
    ensures Inv(s')
  {
    hide Sound, Pending;
    DataWrittenPending(View(s), s.claims.Keys + s.owed, z, data);
    assert View(s') == DataWritten(View(s), z, data);
  }

  lemma EndKeeps(s: State, r: RootSlot, s': State)
    requires Inv(s) && Step(s, EndEmpty(r), s')
    ensures Inv(s')
  {
    hide Sound, Pending, View;
    ViewEnd(s, r);
  }

  lemma StepKeeps(s: State, e: Event, s': State)
    requires Inv(s) && Step(s, e, s') && Careful(s, e)
    ensures Inv(s')
  {
    hide Sound, Pending, View, Fits;
    match e {
      case Take(n, p, y) => TakeKeeps(s, Claim(n, p, y), s');
      case Store(z) => StoreSteps(s, z, s');
      case WriteData(z, data) => WriteKeeps(s, z, data, s');
      case BeginEmpty(r) => BeginKeeps(s, r, s');
      case Free(z) => FreeKeeps(s, z, s');
      case EndEmpty(r) => EndKeeps(s, r, s');
    }
  }

  /** Nobody is in the middle of anything. */
  ghost predicate Quiet(s: State) {
    s.claims == map[] && s.emptying == {} && s.owed == {}
  }

  ghost predicate Run(ss: seq<State>, es: seq<Event>) {
    && |ss| == |es| + 1 && Quiet(ss[0]) && Shaped(ss[0].v) && Sound(ss[0].v) && NoLeaks(ss[0].v)
    && forall n | 0 <= n < |es| :: Shaped(ss[n].v) && Step(ss[n], es[n], ss[n + 1])
  }

  lemma ViewQuiet(s: State)
    requires Quiet(s) && Shaped(s.v)
    ensures View(s) == s.v
  {
    forall n | n in s.v.inodes
      ensures Seen(s, n) == s.v.inodes[n]
    {
      assert Seen(s, n).zone == s.v.inodes[n].zone;
    }
    assert View(s).inodes == s.v.inodes;
  }

  /** A run whose first n steps are careful. */
  ghost predicate CarefulRun(ss: seq<State>, es: seq<Event>, n: nat) {
    Run(ss, es) && n <= |es| && forall m | 0 <= m < n :: Careful(ss[m], es[m])
  }

  /** In a run of careful steps the invariant holds, and whenever all is quiet, no zone is shared or lost. */
  lemma {:induction false} RunKeeps(ss: seq<State>, es: seq<Event>, n: nat)
    requires CarefulRun(ss, es, n)
    ensures Inv(ss[n])
    ensures Quiet(ss[n]) ==> Sound(ss[n].v) && NoLeaks(ss[n].v)
  {
    hide Sound, Step, Careful, Pending, View, NoLeaks;
    if n > 0 {
      RunKeeps(ss, es, n - 1);
      assert Careful(ss[n - 1], es[n - 1]) && Step(ss[n - 1], es[n - 1], ss[n]);
      StepKeeps(ss[n - 1], es[n - 1], ss[n]);
    } else {
      QuietExact(ss[0]);
    }
    if Quiet(ss[n]) {
      QuietExact(ss[n]);
    }
  }

  lemma QuietExact(s: State)
    requires Quiet(s) && Shaped(s.v)
    ensures Inv(s) <==> Sound(s.v) && NoLeaks(s.v)
  {
    hide Sound, Pending, View, NoLeaks;
    ViewQuiet(s);
    NothingPending(s.v);
    assert s.claims.Keys + s.owed == {};
  }

  /**
   * In every run, once the steps before it were careful, storing a zone (one that reads as zeros if it is to be an index block)
   * puts it where it belongs and loses and shares none if and only if the claim still fits.
   */
  lemma StoreFate(ss: seq<State>, es: seq<Event>, n: nat, z: Word)
    requires CarefulRun(ss, es, n) && n < |es| && es[n] == Store(z)
    requires z in ss[n].claims && (ss[n].claims[z].p.IsIndex() ==> ZeroIndex(ss[n].v.disk[z]))
    ensures ClaimOk(ss[n].v, ss[n].claims[z]) && Shaped(ss[n + 1].v)
    ensures StoredRight(View(ss[n + 1]), ss[n].claims[z], z, ss[n + 1].claims.Keys + ss[n + 1].owed) <==> ClaimFits(ss[n], z)
  {
    hide Sound, Pending, View, Fits, Careful, NoLeaks;
    RunKeeps(ss, es, n);
    StoreSteps(ss[n], z, ss[n + 1]);
  }
}
