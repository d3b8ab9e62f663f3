/** Runs in which a zone is marked for good although no file holds it. */
module ZonesLost {
  import opened BlockMapping
  import opened Blocks
  import opened BlockTree
  import opened Bytes
  import opened FileContents
  import opened FiniteSets
  import opened StaleZones
  import opened Truncation
  import opened ZoneClaims
  import opened ZoneRuns

  lemma NextIs(v: Volume, z: Word)
    requires Shaped(v) && v.first == 5 && v.zones == 100 && v.used == Interval(4, z) && 5 <= z < 100
    ensures z in FreeZones(v) && NextFree(v) == z
  {
    assert z in FreeZones(v);
    LeastIs(FreeZones(v), z);
  }

  /** A file without index blocks holds what its first seven slots say. */
  lemma {:induction false} DirectZones(v: Volume, n: nat, p: Pos)
    requires Shaped(v) && n in v.inodes && v.inodes[n].zone[DIRECT_BLOCK] == v.inodes[n].zone[DIRECT_BLOCK + 1] == 0
    ensures ZoneAt(v, n, p) == if p.Direct? then v.inodes[n].zone[p.Place()] else 0
    decreases p.Depth()
  {
    if !p.Root() {
      DirectZones(v, n, p.Parent());
    }
  }

  /** Nobody is in the middle of anything, and zone z is marked, held by no file. */
  ghost predicate Lost(s: State, z: Word) {
    Quiet(s) && Shaped(s.v) && s.v.first <= z && z in s.v.used && forall n, p: Pos | n in s.v.inodes :: ZoneAt(s.v, n, p) != z
  }

  ghost function Begun(): State {
    State(Start(), map[], {}, {})
  }

  lemma BegunLooks()
    ensures var v := Begun().v;
            && Sound(v) && NoLeaks(v) && v.first == 5 && v.zones == 100 && v.used == Interval(4, 12)
            && v.inodes.Keys == {1, 2} && v.inodes[1].zone == [5, 6, 7, 8, 9, 10, 11, 0, 0] && v.inodes[2].zone == NoZones()
            && v.disk[12] == v.disk[13] == Zeros()
  {
    StartIsSound();
  }

  lemma TakeNext(s: State, c: Claim, z: Word) returns (s': State)
    requires Shaped(s.v) && s.v.first == 5 && s.v.zones == 100 && s.v.used == Interval(4, z) && 5 <= z < 100
    requires ClaimOk(s.v, c) && LooksEmpty(s.v, c)
    ensures Step(s, Event.Take(c.n, c.p, c.y), s')
    ensures s' == s.(v := s.v.(used := Interval(4, z + 1)), claims := s.claims[z := c])
  {
    NextIs(s.v, z);
    assert s.v.used + {z} == Interval(4, z + 1);
    s' := s.(v := Reserved(s.v, z), claims := s.claims[z := c]);
  }

  lemma NotDirect(v: Volume, z: Word)
    requires Shaped(v) && z != 0
    requires forall n | n in v.inodes :: v.inodes[n].zone[DIRECT_BLOCK] == v.inodes[n].zone[DIRECT_BLOCK + 1] == 0
    requires forall n, k | n in v.inodes && 0 <= k < DIRECT_BLOCK :: v.inodes[n].zone[k] != z
    ensures forall n, p: Pos | n in v.inodes :: ZoneAt(v, n, p) != z
  {
    forall n, p: Pos | n in v.inodes
      ensures ZoneAt(v, n, p) != z
    {
      DirectZones(v, n, p);
    }
  }

  /** Both processes have marked a zone for the first slot of file 2. */
  lemma BothTaken() returns (s1: State, s2: State)
    ensures var take := Event.Take(2, Direct(0), 0);
            Step(Begun(), take, s1) && Shaped(s1.v) && Step(s1, take, s2)
    ensures s2.claims == map[12 := Claim(2, Direct(0), 0), 13 := Claim(2, Direct(0), 0)] && s2.emptying == {} && s2.owed == {}
    ensures var v := s2.v;
            && Shaped(v) && v.first == 5 && v.used == Interval(4, 14) && v.inodes.Keys == {1, 2} && v.disk[12] == v.disk[13] == Zeros()
            && v.inodes[1].zone == [5, 6, 7, 8, 9, 10, 11, 0, 0] && v.inodes[2].zone == NoZones()
  {
    hide NoSharing, Marked, NoLeaks, FreeZones, Tree, Start;
    BegunLooks();
    s1 := TakeNext(Begun(), Claim(2, Direct(0), 0), 12);
    s2 := TakeNext(s1, Claim(2, Direct(0), 0), 13);
  }

  /**
   * Two processes write the first byte of file 2 and both find its slot empty. The first stores zone 12 and writes its byte;
   * the second stores zone 13 in the same slot. The byte is gone, and nobody holds zone 12.
   */
  lemma WriteLost(b: Byte) returns (ss: seq<State>, es: seq<Event>)
    requires b != 0
    ensures Run(ss, es) && ss[0] == Begun() && |es| == 5
    ensures var take := Event.Take(2, Direct(0), 0); es[..3] == [take, take, Store(12)] && es[4] == Store(13)
    ensures Shaped(ss[4].v) && 2 in ss[4].v.inodes && FileByte(ss[4].v, 2, 0) == b
    ensures Lost(ss[5], 12) && 2 in ss[5].v.inodes && FileByte(ss[5].v, 2, 0) == 0
  {
    hide NoSharing, Marked, NoLeaks, Start, Step;
    BegunLooks();
    var take := Event.Take(2, Direct(0), 0);
    var s1, s2 := BothTaken();
    var data := Splice(Zeros(), 0, [b]);
    var s3, s4, s5 := BothStored(s2, data);
    ss, es := [Begun(), s1, s2, s3, s4, s5], [take, take, Store(12), WriteData(12, data), Store(13)];
    assert PosOf(0) == Direct(0);
    NotDirect(s5.v, 12);
  }

  lemma BothStored(s2: State, data: Block) returns (s3: State, s4: State, s5: State)
    requires s2.claims == map[12 := Claim(2, Direct(0), 0), 13 := Claim(2, Direct(0), 0)]
    requires Shaped(s2.v) && s2.v.inodes.Keys == {1, 2} && s2.v.inodes[2].zone == NoZones()
    ensures Step(s2, Store(12), s3) && Shaped(s3.v) && Step(s3, WriteData(12, data), s4) && Shaped(s4.v) && Step(s4, Store(13), s5)
    ensures s4.v.disk == s2.v.disk[12 := data] && 2 in s4.v.inodes && s4.v.inodes[2].zone == [12, 0, 0, 0, 0, 0, 0, 0, 0]
    ensures Shaped(s5.v) && s5.v == s4.v.(inodes := s5.v.inodes) && s5.v.used == s2.v.used && s5.v.first == s2.v.first
    ensures s5.v.inodes.Keys == {1, 2} && s5.v.inodes[1] == s2.v.inodes[1] && s5.v.inodes[2].zone == [13, 0, 0, 0, 0, 0, 0, 0, 0]
    ensures s5.claims == map[] && s5.emptying == s2.emptying && s5.owed == s2.owed
  {
    var c := Claim(2, Direct(0), 0);
    s3 := s2.(v := Stored(s2.v, c, 12), claims := s2.claims - {12});
    s4 := s3.(v := DataWritten(s3.v, 12, data));
    s5 := s4.(v := Stored(s4.v, c, 13), claims := s4.claims - {13});
  }

  /** The tree of a slot that holds an index block of zeros. */
  lemma EmptyIndexTree(v: Volume)
    requires Shaped(v) && 2 in v.inodes && v.inodes[2].zone[DIRECT_BLOCK] == 12 && ZeroIndex(v.disk[12])
    ensures Tree(v, 2, RootPos(DIRECT_BLOCK)) == {12}
  {
    forall z: nat
      ensures z in Tree(v, 2, Single) <==> z == 12
    {
      if z in Tree(v, 2, Single) {
        var q: Pos :| Single.Above(q) && ZoneAt(v, 2, q) == z;
        assert !Single.Above(Double) && forall i: Index :: !Single.Above(DoubleIndex(i));
        assert q.SingleData? ==> ZoneAt(v, 2, Single) == 12 && Entry(v.disk[12], q.i) == 0;
      } else {
        assert Single.Above(Single);
      }
    }
  }

  /** Zone 12 becomes the index block of file 2, and zone 13 is marked for its first slot. */
  lemma IndexTaken() returns (s1: State, s2: State, s3: State)
    ensures Step(Begun(), Event.Take(2, Single, 0), s1) && Shaped(s1.v) && Step(s1, Store(12), s2)
    ensures Shaped(s2.v) && Step(s2, Event.Take(2, SingleData(0), 12), s3)
    ensures s3.claims == map[13 := Claim(2, SingleData(0), 12)] && s3.emptying == {} && s3.owed == {}
    ensures var v := s3.v;
            && Shaped(v) && v.first == 5 && v.used == Interval(4, 14) && v.inodes.Keys == {1, 2} && v.disk[12] == Zeros()
            && v.inodes[1].zone == [5, 6, 7, 8, 9, 10, 11, 0, 0] && v.inodes[2].zone == [0, 0, 0, 0, 0, 0, 0, 12, 0]
  {
    hide NoSharing, Marked, NoLeaks, FreeZones, Tree, Start;
    BegunLooks();
    s1 := TakeNext(Begun(), Claim(2, Single, 0), 12);
    s2 := s1.(v := Stored(s1.v, Claim(2, Single, 0), 12), claims := s1.claims - {12});
    assert s2.claims == map[];
    s3 := TakeNext(s2, Claim(2, SingleData(0), 12), 13);
  }

  lemma Overtaken(s3: State) returns (s4: State, s5: State, s6: State, s7: State)
    requires s3.claims == map[13 := Claim(2, SingleData(0), 12)] && s3.emptying == {} && s3.owed == {}
    requires Shaped(s3.v) && s3.v.inodes.Keys == {1, 2} && s3.v.disk[12] == Zeros()
    requires s3.v.inodes[2].zone == [0, 0, 0, 0, 0, 0, 0, 12, 0]
    ensures var r := RootSlot(2, DIRECT_BLOCK);
            && Step(s3, BeginEmpty(r), s4) && Shaped(s4.v) && Step(s4, Free(12), s5) && Shaped(s5.v) && Step(s5, EndEmpty(r), s6)
            && Shaped(s6.v) && Step(s6, Store(13), s7)
    ensures Shaped(s7.v) && s7.v.used == s3.v.used - {12} && s7.v.first == s3.v.first && Quiet(s7)
    ensures s7.v.inodes.Keys == {1, 2} && s7.v.inodes[1] == s3.v.inodes[1] && s7.v.inodes[2].zone == NoZones()
  {
    hide Tree;
    var r, d := RootSlot(2, DIRECT_BLOCK), Claim(2, SingleData(0), 12);
    EmptyIndexTree(s3.v);
    s4 := s3.(emptying := {r}, owed := {12});
    s5 := s4.(v := Freed(s4.v, 12), owed := {});
    s6 := s5.(v := WithSlot(s5.v, r, 0), emptying := {});
    s7 := s6.(v := Stored(s6.v, d, 13), claims := map[]);
    assert s6.claims - {13} == map[];
  }

  /**
   * A process writes past the seventh block of file 2, and the file is truncated while it waits for a zone for the data.
   * The zone goes into the index block it remembers, which is free by now, and nobody holds the zone.
   */
  lemma TruncatedAway() returns (ss: seq<State>, es: seq<Event>)
    ensures Run(ss, es) && ss[0] == Begun()
    ensures var r := RootSlot(2, DIRECT_BLOCK);
            es == [Event.Take(2, Single, 0), Store(12), Event.Take(2, SingleData(0), 12), BeginEmpty(r), Free(12), EndEmpty(r), Store(13)]
    ensures Lost(ss[7], 13) && 12 !in ss[7].v.used
  {
    hide NoSharing, Marked, NoLeaks, Start, Step;
    BegunLooks();
    var r := RootSlot(2, DIRECT_BLOCK);
    var s1, s2, s3 := IndexTaken();
    var s4, s5, s6, s7 := Overtaken(s3);
    ss := [Begun(), s1, s2, s3, s4, s5, s6, s7];
    es := [Event.Take(2, Single, 0), Store(12), Event.Take(2, SingleData(0), 12), BeginEmpty(r), Free(12), EndEmpty(r), Store(13)];
    NotDirect(s7.v, 13);
  }
}
