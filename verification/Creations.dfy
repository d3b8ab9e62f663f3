/**
 * Creating a file or a directory takes two steps: a slot of the directory is chosen and named, the caller
 * may sleep while the inode bitmap is written, and then the slot is given the inode number.
 */
module Creations {
  import opened Limits
  import opened Links

  /** Slot k of directory d was chosen for a new inode nr. */
  datatype Claim = Claim(d: nat, k: nat, name: string, nr: nat, kind: Kind)

  /** pending maps the processes that are between the two steps to what they chose; their inode numbers are marked too,
      besides the bits of s, and their directories are in use. */
  datatype World = World(s: State, pending: map<nat, Claim>)

  // ---------- the two steps ----------

  /** A free slot now carries the name, as far as it fits; it stays free. */
  function Chosen(s: State, d: nat, name: string): State
    requires d in s.slots
  {
    s.(slots := s.slots[d := WithEntry(s.slots[d], name, 0)])
  }

  /** The claim's slot exists and its number is unused. */
  predicate Claimable(s: State, c: Claim) {
    && c.d in s.slots && c.k < |s.slots[c.d]| && c.nr !in s.bits
    && (c.kind == Directory ==> c.d in s.table && c.nr != c.d)
  }

  /** The slot gets the number, whatever it holds by now and whatever name it carries. */
  function Claimed(s: State, c: Claim): State
    requires Claimable(s, c)
  {
    var name := s.slots[c.d][c.k].name;
    if c.kind == File then CreatedAt(s, c.d, c.k, name, c.nr) else MkdiredAt(s, c.d, c.k, name, c.nr)
  }

  /** The chosen slot is still free, and no entry has the name it carries. */
  ghost predicate Untouched(s: State, c: Claim)
    requires Claimable(s, c)
  {
    !LiveAt(s.slots[c.d], c.k) && !Has(s.slots[c.d], s.slots[c.d][c.k].name)
  }

  /** A creation that does not sleep is the two steps at once. */
  lemma ChooseThenClaim(s: State, d: nat, name: string, nr: nat, kind: Kind)
    requires d in s.slots && d in s.table && nr !in s.bits && nr != d
    ensures var c := Claim(d, FreeSlot(s.slots[d]), name, nr, kind);
            && Claimable(Chosen(s, d, name), c)
            && Claimed(Chosen(s, d, name), c) == if kind == File then Created(s, d, name, nr) else Mkdired(s, d, name, nr)
  {
    var k := FreeSlot(s.slots[d]);
    var stored := Cut(name);
    assert PutAt(PutAt(s.slots[d], k, stored, 0), k, stored, nr) == PutAt(s.slots[d], k, stored, nr);
    assert s.slots[d := PutAt(s.slots[d], k, stored, 0)][d := PutAt(s.slots[d], k, stored, nr)]
        == s.slots[d := PutAt(s.slots[d], k, stored, nr)];
  }

  // ---------- what they keep ----------

  lemma ChosenKeeps(s: State, d: nat, name: string)
    requires Inv(s) && d in s.slots
    ensures Inv(Chosen(s, d, name))
  {
    hide Tree, NamesDistinct, Refs;
    var s' := Chosen(s, d, name);
    var k := FreeSlot(s.slots[d]);
    assert DirOk(s, d) && DirOk(s, s.slots[d][1].nr);
    forall m: nat
      ensures CountOk(s', m)
    {
      assert CountOk(s, m);
      if m != 0 {
        RefsAdded(s.slots, d, k, Cut(name), 0, m);
      }
    }
    ChosenDirs(s, d, name);
    TreeKept(s, s', d);
  }

  lemma ChosenDirs(s: State, d: nat, name: string)
    requires Inv(s) && d in s.slots
    ensures forall e: nat :: DirOk(Chosen(s, d, name), e)
  {
    hide Tree, CountOk, BitsOk;
    var s' := Chosen(s, d, name);
    assert DirOk(s, d) && DirOk(s, s.slots[d][1].nr);
    assert NamesDistinct(s'.slots[d]) by {
      assert forall i: nat :: LiveAt(s'.slots[d], i) ==> LiveAt(s.slots[d], i) && s'.slots[d][i] == s.slots[d][i];
    }
    forall e: nat
      ensures DirOk(s', e)
    {
      assert DirOk(s, e);
    }
  }

  /** Giving a slot that is taken to another inode leaves the first one with a link too many. */
  lemma TakenSlot(s: State, c: Claim)
    requires Inv(s) && Claimable(s, c) && LiveAt(s.slots[c.d], c.k)
    ensures !CountOk(Claimed(s, c), s.slots[c.d][c.k].nr)
  {
    hide Tree, NamesDistinct, Refs;
    var n, s' := s.slots[c.d][c.k].nr, Claimed(s, c);
    EntryNamesLive(s, c.d, c.k);
    UnusedNumber(s, c.nr);
    assert CountOk(s, n) && CountOk(s, c.d) && DirOk(s, c.d);
    var slots1 := s.slots[c.d := PutAt(s.slots[c.d], c.k, s.slots[c.d][c.k].name, c.nr)];
    RefsRenumbered(s.slots, c.d, c.k, c.nr, n);
    if c.kind == Directory {
      RefsNewDirectory(slots1, c.d, c.nr, n);
    }
  }

  lemma RefsRenumbered(slots: map<nat, seq<Slot>>, d: nat, k: nat, nr: nat, n: nat)
    requires d in slots && k < |slots[d]| && n != 0 && nr != n && slots[d][k].nr == n
    ensures Refs(slots[d := PutAt(slots[d], k, slots[d][k].name, nr)], n) == Refs(slots, n) - {(d, k)}
    ensures (d, k) in Refs(slots, n)
  {
    var slots' := slots[d := PutAt(slots[d], k, slots[d][k].name, nr)];
    forall p: (nat, nat)
      ensures p in Refs(slots', n) <==> p in Refs(slots, n) && p != (d, k)
    {
      InRefs(slots, n, p);
      InRefs(slots', n, p);
    }
    InRefs(slots, n, (d, k));
  }

  /**
   * The second step keeps counts exact and names distinct if and only if the slot is still free and its name is
   * not taken; for a directory the parent must also have fewer than 255 links.
   */
  lemma ClaimExact(s: State, c: Claim)
    requires Inv(s) && Claimable(s, c)
    ensures Inv(Claimed(s, c)) <==> Untouched(s, c) && (c.kind == Directory ==> LinksOf(s, c.d) < LINK_MAX)
  {
    hide Tree, CountOk, BitsOk, NamesDistinct;
    var entries := s.slots[c.d];
    assert DirOk(s, c.d);
    UnusedNumber(s, c.nr);
    if LiveAt(entries, c.k) {
      TakenSlot(s, c);
    } else if Has(entries, entries[c.k].name) {
      NamedTwice(entries, c.k, entries[c.k].name, c.nr);
      assert !DirOk(Claimed(s, c), c.d);
    } else if c.kind == File {
      CreatedAtKeeps(s, c.d, c.k, entries[c.k].name, c.nr);
    } else {
      MkdirAtExact(s, c.d, c.k, entries[c.k].name, c.nr);
    }
  }

  // ---------- whole runs ----------

  datatype WorldEvent =
    | Whole(e: Event)
    | Choose(p: nat, d: nat, name: string, nr: nat, kind: Kind)
    | Finish(p: nat)

  ghost predicate Reserved(w: World, nr: nat) {
    exists p :: p in w.pending && w.pending[p].nr == nr
  }

  ghost predicate InUse(w: World, d: nat) {
    exists p :: p in w.pending && w.pending[p].d == d
  }

  /** Calls that do not sleep, and the two halves of creations that do. */
  ghost predicate WorldStep(w: World, e: WorldEvent, w': World) {
    match e
    case Whole(e) =>
      && Step(w.s, e, w'.s) && w'.pending == w.pending
      && (e.Create? || e.Mkdir? ==> !Reserved(w, e.nr))
      && (e.Rmdir? ==> !InUse(w, e.n))
    case Choose(p, d, name, nr, kind) =>
      && p !in w.pending && d in w.s.slots && !Has(w.s.slots[d], name) && nr !in w.s.bits && !Reserved(w, nr)
      && w' == World(Chosen(w.s, d, name), w.pending[p := Claim(d, FreeSlot(w.s.slots[d]), name, nr, kind)])
    case Finish(p) =>
      && p in w.pending && Claimable(w.s, w.pending[p])
      && w' == World(Claimed(w.s, w.pending[p]), w.pending - {p})
  }

  /** What the code does not test: names are new as they will be stored, and link counts that go up are below 255. */
  ghost predicate WorldCareful(w: World, e: WorldEvent) {
    match e
    case Whole(e) => Careful(w.s, e)
    case Choose(_, d, name, _, _) => d in w.s.slots && !Has(w.s.slots[d], Cut(name))
    case Finish(p) => p in w.pending && w.pending[p].kind == Directory ==> LinksOf(w.s, w.pending[p].d) < LINK_MAX
  }

  /** The step puts an entry into directory d, or chooses a slot there. */
  ghost predicate WritesIn(w: World, e: WorldEvent, d: nat) {
    match e
    case Whole(e) => (e.Create? || e.Link? || e.Mkdir?) && e.d == d
    case Choose(_, d', _, _, _) => d' == d
    case Finish(p) => p in w.pending && w.pending[p].d == d
  }

  ghost predicate WorldRun(ws: seq<World>, es: seq<WorldEvent>) {
    && |ws| == |es| + 1 && ws[0] == World(Fresh(), map[])
    && forall n | 0 <= n < |es| :: WorldStep(ws[n], es[n], ws[n + 1])
  }

  /** Between the choice at m and the claim at n nobody else puts an entry into the directory. */
  ghost predicate Undisturbed(ws: seq<World>, es: seq<WorldEvent>, m: nat, n: nat)
    requires |ws| == |es| + 1 && n < |es|
  {
    && m < n && es[m].Choose? && es[n] == Finish(es[m].p)
    && forall i | m < i < n :: es[i] != es[n] && !WritesIn(ws[i], es[i], es[m].d)
  }

  /** The claim's slot is free and carries its name as stored, which no entry has. */
  ghost predicate Quiet(s: State, c: Claim) {
    && c.d in s.slots && c.k < |s.slots[c.d]| && s.slots[c.d][c.k] == Slot(0, Cut(c.name)) && !Has(s.slots[c.d], Cut(c.name))
  }

  /** A step elsewhere leaves it so. */
  lemma QuietStays(w: World, e: WorldEvent, w': World, p: nat)
    requires Inv(w.s) && WorldStep(w, e, w') && p in w.pending && e != Finish(p) && Quiet(w.s, w.pending[p])
    requires !WritesIn(w, e, w.pending[p].d)
    ensures p in w'.pending && w'.pending[p] == w.pending[p] && Quiet(w'.s, w.pending[p])
  {
    hide Tree, CountOk, BitsOk;
    var c := w.pending[p];
    assert c.d in w'.s.slots && |w'.s.slots[c.d]| == |w.s.slots[c.d]| by {
      if e.Whole? && e.e.Mkdir? {
        UnusedNumber(w.s, e.e.nr);
      }
      if e.Finish? {
        UnusedNumber(w.s, w.pending[e.p].nr);
      }
    }
    forall i: nat | LiveAt(w'.s.slots[c.d], i)
      ensures LiveAt(w.s.slots[c.d], i) && w'.s.slots[c.d][i] == w.s.slots[c.d][i]
    {
      if e.Whole? && e.e.Mkdir? {
        UnusedNumber(w.s, e.e.nr);
      }
      if e.Finish? {
        UnusedNumber(w.s, w.pending[e.p].nr);
      }
    }
    assert w'.s.slots[c.d][c.k] == Slot(0, Cut(c.name)) by {
      if e.Whole? && e.e.Mkdir? {
        UnusedNumber(w.s, e.e.nr);
      }
      if e.Finish? {
        UnusedNumber(w.s, w.pending[e.p].nr);
      }
    }
  }

  lemma {:induction false} QuietUntil(ws: seq<World>, es: seq<WorldEvent>, m: nat, n: nat, i: nat)
    requires |ws| == |es| + 1 && forall j | 0 <= j < |es| :: WorldStep(ws[j], es[j], ws[j + 1])
    requires n < |es| && Undisturbed(ws, es, m, n) && m < i <= n
    requires forall j | 0 <= j <= n :: Inv(ws[j].s)
    requires WorldCareful(ws[m], es[m])
    ensures es[m].p in ws[i].pending && ws[i].pending[es[m].p].d == es[m].d && Quiet(ws[i].s, ws[i].pending[es[m].p])
  {
    hide Inv;
    if i == m + 1 {
      ChosenQuiet(ws[m], es[m], ws[i]);
    } else {
      QuietUntil(ws, es, m, n, i - 1);
      QuietStays(ws[i - 1], es[i - 1], ws[i], es[m].p);
    }
  }

  lemma ChosenQuiet(w: World, e: WorldEvent, w': World)
    requires e.Choose? && WorldStep(w, e, w') && WorldCareful(w, e)
    ensures e.p in w'.pending && w'.pending[e.p].d == e.d && Quiet(w'.s, w'.pending[e.p])
  {
    var entries, after := w.s.slots[e.d], w'.s.slots[e.d];
    assert forall i: nat :: LiveAt(after, i) ==> LiveAt(entries, i) && after[i] == entries[i];
  }

  /**
   * Over every run of careful calls from a new volume in which no claim is disturbed, the link counts are exact, the names of a
   * directory distinct and the directories a tree, in between the halves of creations too.
   */
  lemma {:induction false} WorldRunKeeps(ws: seq<World>, es: seq<WorldEvent>, n: nat)
    requires WorldRun(ws, es) && n < |ws|
    requires forall j | 0 <= j < |es| :: WorldCareful(ws[j], es[j])
    requires forall j: nat | j < |es| && es[j].Finish? :: exists m: nat :: Undisturbed(ws, es, m, j)
    ensures forall j | 0 <= j <= n :: Inv(ws[j].s)
  {
    hide Inv, Fresh, Step, Careful, Chosen, Claimed;
    if n == 0 {
      FreshInv();
    } else {
      WorldRunKeeps(ws, es, n - 1);
      var w, e, w' := ws[n - 1], es[n - 1], ws[n];
      assert WorldStep(w, e, w');
      match e {
        case Whole(e) => StepExact(w.s, e, w'.s);
        case Choose(p, d, name, nr, kind) => ChosenKeeps(w.s, d, name);
        case Finish(p) =>
          var m: nat :| Undisturbed(ws, es, m, n - 1);
          QuietUntil(ws, es, m, n - 1, n - 1);
          ClaimExact(w.s, w.pending[p]);
      }
    }
  }

  // ---------- a run in which a file is lost ----------

  function LostEvents(): seq<WorldEvent> {
    [Choose(1, ROOT, "a", 2, File), Choose(2, ROOT, "b", 3, File), Finish(1), Finish(2)]
  }

  /** Two processes create files in the root: both choose its third slot, and inode 2 ends with a link and no entry. */
  lemma FileLost() returns (ws: seq<World>)
    ensures WorldRun(ws, LostEvents())
    ensures ROOT in ws[3].s.slots && ws[3].s.slots[ROOT] == [Slot(ROOT, "."), Slot(ROOT, ".."), Slot(2, "b")]
    ensures ws[4].s.slots.Keys == {ROOT} && ws[4].s.slots[ROOT] == [Slot(ROOT, "."), Slot(ROOT, ".."), Slot(3, "b")]
    ensures LinksOf(ws[4].s, 2) == 1 && Refs(ws[4].s.slots, 2) == {}
  {
    var dots := [Slot(ROOT, "."), Slot(ROOT, "..")];
    ThirdSlot(dots);
    ThirdSlot(dots + [Slot(0, "a")]);
    var w0 := World(Fresh(), map[]);
    var c1, c2 := Claim(ROOT, 2, "a", 2, File), Claim(ROOT, 2, "b", 3, File);
    var w1 := World(Chosen(w0.s, ROOT, "a"), map[1 := c1]);
    assert w1.s.slots[ROOT] == dots + [Slot(0, "a")];
    var w2 := World(Chosen(w1.s, ROOT, "b"), map[1 := c1, 2 := c2]);
    assert w2.s.slots[ROOT] == dots + [Slot(0, "b")];
    var w3 := World(Claimed(w2.s, c1), map[2 := c2]);
    assert w3.s.slots[ROOT] == dots + [Slot(2, "b")];
    var w4 := World(Claimed(w3.s, c2), map[]);
    assert w4.s.slots[ROOT] == dots + [Slot(3, "b")];
    ws := [w0, w1, w2, w3, w4];
    assert w4.s.slots.Keys == {ROOT};
    forall p: (nat, nat)
      ensures p !in Refs(w4.s.slots, 2)
    {
      InRefs(w4.s.slots, 2, p);
    }
    assert w1.pending == w0.pending[1 := c1] && w2.pending == w1.pending[2 := c2];
    assert w3.pending == w2.pending - {1} && w4.pending == w3.pending - {2};
  }

  /** The third slot is the first that is free. */
  lemma ThirdSlot(entries: seq<Slot>)
    requires 2 <= |entries| <= 3 && entries[0].nr != 0 && entries[1].nr != 0 && (|entries| == 3 ==> entries[2].nr == 0)
    ensures FreeSlot(entries) == 2
  {}
}
