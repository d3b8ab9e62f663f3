/** Directories, their entries, and the link counts of inodes, on one volume. */
module Links {
  import opened FiniteSets
  import opened Limits

  const LINK_MAX := 255

  /** An entry has room for this many characters of a name, and a terminator. */
  const NAME_MAX := 13

  /** Inode number 0 marks a slot that is free. */
  datatype Slot = Slot(nr: nat, name: string)

  datatype Kind = File | Directory

  datatype Node = Node(kind: Kind, nlinks: nat)

  /** bits is the inode bitmap, whose bit 0 is reserved; slots holds the entries of each directory; held are the
      directories that tasks have in use. */
  datatype State = State(table: map<nat, Node>, bits: set<nat>, slots: map<nat, seq<Slot>>, held: set<nat>)

  // ---------- entries ----------

  predicate LiveAt(entries: seq<Slot>, i: nat) {
    i < |entries| && entries[i].nr != 0
  }

  ghost predicate Has(entries: seq<Slot>, name: string) {
    exists i: nat :: LiveAt(entries, i) && entries[i].name == name
  }

  /** The first slot that is free, or the place after the last. */
  function FreeSlot(entries: seq<Slot>): (k: nat)
    ensures k <= |entries|
    ensures forall i | 0 <= i < k :: entries[i].nr != 0
    ensures k < |entries| ==> entries[k].nr == 0
  {
    if entries == [] || entries[0].nr == 0 then 0 else 1 + FreeSlot(entries[1..])
  }

  lemma NoFreeSlot(entries: seq<Slot>)
    requires forall i | 0 <= i < |entries| :: entries[i].nr != 0
    ensures FreeSlot(entries) == |entries|
  {}

  /** What is stored of a name: as much of it as fits. */
  function Cut(name: string): (r: string)
    ensures r <= name && |r| <= NAME_MAX && (|r| < NAME_MAX ==> r == name)
  {
    if |name| <= NAME_MAX then name else name[..NAME_MAX]
  }

  /** The directory with a new entry: in the first free slot, or at the end, which grows by one. */
  function WithEntry(entries: seq<Slot>, name: string, nr: nat): (r: seq<Slot>) {
    PutAt(entries, FreeSlot(entries), Cut(name), nr)
  }

  /** A new entry in slot k, or just behind the last slot. */
  function PutAt(entries: seq<Slot>, k: nat, name: string, nr: nat): (r: seq<Slot>)
    requires k <= |entries|
  {
    if k < |entries| then entries[k := Slot(nr, name)] else entries + [Slot(nr, name)]
  }

  predicate OpenAt(entries: seq<Slot>, k: nat) {
    k <= |entries| && !LiveAt(entries, k)
  }

  function WithoutEntry(entries: seq<Slot>, k: nat): seq<Slot>
    requires k < |entries|
  {
    entries[k := entries[k].(nr := 0)]
  }

  // ---------- counting ----------

  ghost function Places(slots: map<nat, seq<Slot>>): set<(nat, nat)> {
    set d, i | d in slots && i in Interval(0, |slots[d]|) :: (d, i)
  }

  ghost predicate NamesAt(slots: map<nat, seq<Slot>>, p: (nat, nat), n: nat) {
    p.0 in slots && p.1 < |slots[p.0]| && slots[p.0][p.1].nr == n
  }

  /** The slots that name inode n. */
  ghost function Refs(slots: map<nat, seq<Slot>>, n: nat): set<(nat, nat)> {
    set p | p in Places(slots) && NamesAt(slots, p, n)
  }

  lemma InRefs(slots: map<nat, seq<Slot>>, n: nat, p: (nat, nat))
    ensures p in Refs(slots, n) <==> NamesAt(slots, p, n)
  {
    if NamesAt(slots, p, n) {
      assert p.1 in Interval(0, |slots[p.0]|);
      assert (p.0, p.1) in Places(slots);
    }
  }

  function LinksOf(s: State, n: nat): nat {
    if n in s.table then s.table[n].nlinks else 0
  }

  // ---------- the operations ----------

  /** A new file named name in slot k of directory d, with inode nr. */
  function CreatedAt(s: State, d: nat, k: nat, name: string, nr: nat): State
    requires d in s.slots && k <= |s.slots[d]|
  {
    s.(table := s.table[nr := Node(File, 1)], bits := s.bits + {nr},
       slots := s.slots[d := PutAt(s.slots[d], k, name, nr)])
  }

  /** In the first slot that is free. */
  function Created(s: State, d: nat, name: string, nr: nat): State
    requires d in s.slots
  {
    CreatedAt(s, d, FreeSlot(s.slots[d]), Cut(name), nr)
  }

  /** A link count is one byte wide. */
  function Plus(n: nat): nat {
    (n + 1) % 256
  }

  function Linked(s: State, d: nat, name: string, n: nat): State
    requires d in s.slots && n in s.table
  {
    s.(table := s.table[n := s.table[n].(nlinks := Plus(s.table[n].nlinks))],
       slots := s.slots[d := WithEntry(s.slots[d], name, n)])
  }

  /** A new directory: its own "." and "..", an entry in slot k of d, and a link more for d. */
  function MkdiredAt(s: State, d: nat, k: nat, name: string, nr: nat): State
    requires d in s.slots && d in s.table && nr != d && k <= |s.slots[d]|
  {
    s.(table := s.table[nr := Node(Directory, 2)][d := s.table[d].(nlinks := Plus(s.table[d].nlinks))],
       bits := s.bits + {nr},
       slots := s.slots[d := PutAt(s.slots[d], k, name, nr)][nr := [Slot(nr, "."), Slot(d, "..")]])
  }

  function Mkdired(s: State, d: nat, name: string, nr: nat): State
    requires d in s.slots && d in s.table && nr != d
  {
    MkdiredAt(s, d, FreeSlot(s.slots[d]), Cut(name), nr)
  }

  /** The file named by slot k of d loses a link, and with the last one its inode. */
  function Unlinked(s: State, d: nat, k: nat): State
    requires d in s.slots && k < |s.slots[d]| && s.slots[d][k].nr in s.table && s.table[s.slots[d][k].nr].nlinks > 0
  {
    var n := s.slots[d][k].nr;
    var left := s.table[n].nlinks - 1;
    s.(table := s.table[n := s.table[n].(nlinks := left)], bits := if left == 0 then s.bits - {n} else s.bits,
       slots := s.slots[d := WithoutEntry(s.slots[d], k)])
  }

  /** The directory named by slot k of d goes, and d loses the link of its "..". */
  function Rmdired(s: State, d: nat, k: nat): State
    requires d in s.slots && k < |s.slots[d]| && d in s.table && s.table[d].nlinks > 0 && s.slots[d][k].nr in s.table
    requires s.slots[d][k].nr != d
  {
    var n := s.slots[d][k].nr;
    s.(table := s.table[n := s.table[n].(nlinks := 0)][d := s.table[d].(nlinks := s.table[d].nlinks - 1)],
       bits := s.bits - {n},
       slots := (s.slots - {n})[d := WithoutEntry(s.slots[d], k)])
  }

  function LiveCount(entries: seq<Slot>): nat {
    if entries == [] then 0 else LiveCount(entries[..|entries| - 1]) + (if entries[|entries| - 1].nr != 0 then 1 else 0)
  }

  // ---------- what holds of a volume ----------

  /** A bit is set exactly for the inodes with links. */
  ghost predicate BitsOk(s: State) {
    0 in s.bits && forall n: nat | n != 0 :: n in s.bits <==> LinksOf(s, n) > 0
  }

  /** The link count of an inode is the number of entries naming it. */
  ghost predicate CountOk(s: State, n: nat) {
    n != 0 ==> LinksOf(s, n) == |Refs(s.slots, n)|
  }

  ghost predicate IsDir(s: State, d: nat) {
    d in s.table && s.table[d].kind == Directory && d in s.bits
  }

  /** The entries "." and ".." of directory d. */
  ghost predicate DotsOk(s: State, d: nat)
    requires d in s.slots
  {
    && |s.slots[d]| >= 2
    && s.slots[d][0] == Slot(d, ".")
    && s.slots[d][1].name == ".." && s.slots[d][1].nr in s.slots
  }

  ghost predicate NamesDistinct(entries: seq<Slot>) {
    forall i: nat, j: nat | LiveAt(entries, i) && LiveAt(entries, j) && entries[i].name == entries[j].name :: i == j
  }

  ghost predicate NamesShort(entries: seq<Slot>) {
    forall i | 0 <= i < |entries| :: |entries[i].name| <= NAME_MAX
  }

  ghost predicate DirOk(s: State, d: nat) {
    && (d in s.slots <==> d != 0 && IsDir(s, d))
    && (d in s.slots ==> DotsOk(s, d) && NamesDistinct(s.slots[d]) && NamesShort(s.slots[d]))
  }

  /** Slot k of d is an ordinary entry that names n. */
  ghost predicate Names(s: State, d: nat, k: nat, n: nat) {
    d in s.slots && 2 <= k < |s.slots[d]| && n != 0 && s.slots[d][k].nr == n
  }

  /** An ordinary entry that names a directory stands in the directory its ".." names, and is the only one. */
  ghost predicate EntryOk(s: State, d: nat, k: nat) {
    d in s.slots && LiveAt(s.slots[d], k) && k >= 2 && s.slots[d][k].nr in s.slots ==>
      var n := s.slots[d][k].nr;
      && n != ROOT
      && |s.slots[n]| >= 2 && s.slots[n][1].nr == d
      && forall j :: Names(s, d, j, n) ==> j == k
  }

  /** Every directory but the root is named in the directory its ".." names. */
  ghost predicate ParentOk(s: State, n: nat) {
    n in s.slots && |s.slots[n]| >= 2 ==>
      if n == ROOT then s.slots[n][1].nr == ROOT else exists k :: Names(s, s.slots[n][1].nr, k, n)
  }

  ghost predicate Tree(s: State) {
    && ROOT in s.slots
    && (forall d: nat, k: nat :: EntryOk(s, d, k))
    && (forall n: nat :: ParentOk(s, n))
  }

  ghost predicate Inv(s: State) {
    && BitsOk(s)
    && (forall n: nat :: CountOk(s, n))
    && (forall d: nat :: DirOk(s, d))
    && Tree(s)
    && (forall d: nat | d in s.held :: d in s.slots)
  }

  // ---------- how the entries naming an inode change ----------

  lemma RefsAdded(slots: map<nat, seq<Slot>>, d: nat, k: nat, name: string, nr: nat, n: nat)
    requires d in slots && n != 0 && OpenAt(slots[d], k)
    ensures var slots' := slots[d := PutAt(slots[d], k, name, nr)];
            && (d, k) !in Refs(slots, n)
            && Refs(slots', n) == Refs(slots, n) + (if nr == n then {(d, k)} else {})
  {
    var slots' := slots[d := PutAt(slots[d], k, name, nr)];
    forall p: (nat, nat)
      ensures p in Refs(slots', n) <==> p in Refs(slots, n) || (nr == n && p == (d, k))
    {
      InRefs(slots, n, p);
      InRefs(slots', n, p);
    }
    InRefs(slots, n, (d, k));
  }

  lemma RefsRemoved(slots: map<nat, seq<Slot>>, d: nat, k: nat, n: nat)
    requires d in slots && k < |slots[d]| && n != 0
    ensures Refs(slots[d := WithoutEntry(slots[d], k)], n) == Refs(slots, n) - {(d, k)}
    ensures (d, k) in Refs(slots, n) <==> slots[d][k].nr == n
  {
    var slots' := slots[d := WithoutEntry(slots[d], k)];
    forall p: (nat, nat)
      ensures p in Refs(slots', n) <==> p in Refs(slots, n) && p != (d, k)
    {
      InRefs(slots, n, p);
      InRefs(slots', n, p);
    }
    InRefs(slots, n, (d, k));
  }

  lemma RefsNewDirectory(slots: map<nat, seq<Slot>>, d: nat, nr: nat, n: nat)
    requires nr !in slots && n != 0
    ensures var slots' := slots[nr := [Slot(nr, "."), Slot(d, "..")]];
            Refs(slots', n) == Refs(slots, n) + (if nr == n then {(nr, 0)} else {}) + (if d == n then {(nr, 1)} else {})
    ensures (nr, 0) !in Refs(slots, n) && (nr, 1) !in Refs(slots, n)
  {
    var slots' := slots[nr := [Slot(nr, "."), Slot(d, "..")]];
    forall p: (nat, nat)
      ensures p in Refs(slots', n) <==> p in Refs(slots, n) || (nr == n && p == (nr, 0)) || (d == n && p == (nr, 1))
    {
      InRefs(slots, n, p);
      InRefs(slots', n, p);
    }
    InRefs(slots, n, (nr, 0));
    InRefs(slots, n, (nr, 1));
  }

  /** A directory with nothing but its dots goes. */
  lemma RefsLostDirectory(slots: map<nat, seq<Slot>>, r: nat, n: nat)
    requires r in slots && |slots[r]| >= 2 && n != 0
    requires forall i: nat | LiveAt(slots[r], i) :: i < 2
    ensures Refs(slots - {r}, n) ==
              Refs(slots, n) - (if slots[r][0].nr == n then {(r, 0)} else {}) - (if slots[r][1].nr == n then {(r, 1)} else {})
    ensures slots[r][0].nr == n <==> (r, 0) in Refs(slots, n)
    ensures slots[r][1].nr == n <==> (r, 1) in Refs(slots, n)
  {
    forall p: (nat, nat)
      ensures p in Refs(slots - {r}, n) <==>
                p in Refs(slots, n) && !(slots[r][0].nr == n && p == (r, 0)) && !(slots[r][1].nr == n && p == (r, 1))
    {
      InRefs(slots, n, p);
      InRefs(slots - {r}, n, p);
      if p.0 == r && p.1 < |slots[r]| && slots[r][p.1].nr == n {
        assert LiveAt(slots[r], p.1);
      }
    }
    InRefs(slots, n, (r, 0));
    InRefs(slots, n, (r, 1));
  }

  // ---------- files ----------

  /** Only ordinary entries of d change, and none of them names a directory before or after. */
  ghost predicate SameTree(s: State, s': State, d: nat) {
    && s'.slots.Keys == s.slots.Keys
    && (forall e: nat | e in s.slots && e != d :: s'.slots[e] == s.slots[e])
    && d in s.slots && |s'.slots[d]| >= |s.slots[d]| >= 2
    && s'.slots[d][0] == s.slots[d][0] && s'.slots[d][1] == s.slots[d][1]
    && (forall k: nat, n: nat | n in s.slots && n != 0 :: Names(s', d, k, n) <==> Names(s, d, k, n))
  }

  lemma TreeKept(s: State, s': State, d: nat)
    requires Tree(s) && SameTree(s, s', d)
    ensures Tree(s')
  {
    forall e: nat, k: nat
      ensures EntryOk(s', e, k)
    {
      assert EntryOk(s, e, k);
      if e in s'.slots && LiveAt(s'.slots[e], k) && k >= 2 && s'.slots[e][k].nr in s'.slots {
        assert Names(s', e, k, s'.slots[e][k].nr);
        assert Names(s, e, k, s'.slots[e][k].nr);
        forall j | Names(s', e, j, s'.slots[e][k].nr)
          ensures j == k
        {
          assert Names(s, e, j, s'.slots[e][k].nr);
        }
      }
    }
    forall n: nat
      ensures ParentOk(s', n)
    {
      assert ParentOk(s, n);
      if n in s.slots && |s.slots[n]| >= 2 && n != ROOT {
        var k :| Names(s, s.slots[n][1].nr, k, n);
        assert Names(s', s.slots[n][1].nr, k, n);
      }
    }
  }

  /** The live files. */
  ghost predicate IsFile(s: State, n: nat) {
    n != 0 && n in s.table && s.table[n].kind == File && n in s.bits
  }

  /** A number that no entry names. */
  lemma UnusedNumber(s: State, nr: nat)
    requires Inv(s) && nr !in s.bits
    ensures nr != 0 && nr !in s.slots && LinksOf(s, nr) == 0 && Refs(s.slots, nr) == {}
  {
    hide Tree;
    assert CountOk(s, nr) && DirOk(s, nr);
  }

  /** An entry of d that names no directory comes; nothing but the table's file part changes beside it. */
  lemma FileEntryAdded(s: State, s': State, d: nat, k: nat, name: string, nr: nat)
    requires Inv(s) && d in s.slots && OpenAt(s.slots[d], k) && !Has(s.slots[d], name) && |name| <= NAME_MAX && nr !in s.slots
    requires s'.slots == s.slots[d := PutAt(s.slots[d], k, name, nr)]
    requires s'.held == s.held
    requires forall n: nat | n != nr :: (n in s'.table <==> n in s.table) && (n in s'.bits <==> n in s.bits)
    requires forall n: nat | n != nr && n in s.table :: s'.table[n] == s.table[n]
    requires nr in s'.table && s'.table[nr].kind == File
    ensures forall e: nat :: DirOk(s', e)
    ensures Tree(s')
  {
    hide CountOk, BitsOk, Tree;
    assert DirOk(s, d) && DirOk(s, s.slots[d][1].nr);
    forall e: nat
      ensures DirOk(s', e)
    {
      assert DirOk(s, e);
    }
    TreeKept(s, s', d);
  }

  lemma LinkedKeeps(s: State, d: nat, name: string, n: nat)
    requires Inv(s) && d in s.slots && !Has(s.slots[d], Cut(name)) && IsFile(s, n) && s.table[n].nlinks < LINK_MAX
    ensures Inv(Linked(s, d, name, n))
  {
    hide Tree, NamesDistinct, NamesShort, Refs;
    var s' := Linked(s, d, name, n);
    assert DirOk(s, n);
    FileEntryAdded(s, s', d, FreeSlot(s.slots[d]), Cut(name), n);
    forall m: nat
      ensures CountOk(s', m)
    {
      assert CountOk(s, m);
      if m != 0 {
        RefsAdded(s.slots, d, FreeSlot(s.slots[d]), Cut(name), n, m);
      }
    }
  }

  /** A second live entry with a name that is there already. */
  lemma NamedTwice(entries: seq<Slot>, k: nat, name: string, nr: nat)
    requires OpenAt(entries, k) && Has(entries, name) && nr != 0
    ensures !NamesDistinct(PutAt(entries, k, name, nr))
  {
    var i: nat :| LiveAt(entries, i) && entries[i].name == name;
    var after := PutAt(entries, k, name, nr);
    assert LiveAt(after, i) && LiveAt(after, k) && after[i].name == after[k].name && i != k;
  }

  /**
   * sys_link keeps counts exact and names distinct if and only if the file has fewer than 255 links and no entry has the name
   * as it is stored. The code only looks for the name as it is given.
   */
  lemma LinkExact(s: State, d: nat, name: string, n: nat)
    requires Inv(s) && d in s.slots && IsFile(s, n)
    ensures Inv(Linked(s, d, name, n)) <==> s.table[n].nlinks < LINK_MAX && !Has(s.slots[d], Cut(name))
  {
    hide Tree, NamesDistinct, NamesShort, Refs;
    if Has(s.slots[d], Cut(name)) {
      NamedTwice(s.slots[d], FreeSlot(s.slots[d]), Cut(name), n);
      assert !DirOk(Linked(s, d, name, n), d);
    } else if s.table[n].nlinks < LINK_MAX {
      LinkedKeeps(s, d, name, n);
    } else {
      assert CountOk(s, n);
      RefsAdded(s.slots, d, FreeSlot(s.slots[d]), Cut(name), n, n);
      assert Plus(s.table[n].nlinks) <= s.table[n].nlinks;
      assert !CountOk(Linked(s, d, name, n), n);
    }
  }

  /** A file is created in any slot that is free at that moment, with a name that fits. */
  lemma CreatedAtKeeps(s: State, d: nat, k: nat, name: string, nr: nat)
    requires Inv(s) && d in s.slots && OpenAt(s.slots[d], k) && !Has(s.slots[d], name) && |name| <= NAME_MAX && nr !in s.bits
    ensures Inv(CreatedAt(s, d, k, name, nr))
  {
    hide Tree, NamesDistinct, NamesShort, Refs;
    var s' := CreatedAt(s, d, k, name, nr);
    UnusedNumber(s, nr);
    FileEntryAdded(s, s', d, k, name, nr);
    forall m: nat
      ensures CountOk(s', m)
    {
      assert CountOk(s, m);
      if m != 0 {
        RefsAdded(s.slots, d, k, name, nr, m);
      }
    }
  }

  /** Creating a file keeps the volume right if and only if no entry has the name as it is stored. */
  lemma CreatedExact(s: State, d: nat, name: string, nr: nat)
    requires Inv(s) && d in s.slots && nr !in s.bits
    ensures Inv(Created(s, d, name, nr)) <==> !Has(s.slots[d], Cut(name))
  {
    hide Tree, NamesDistinct, NamesShort, CountOk, BitsOk;
    if Has(s.slots[d], Cut(name)) {
      UnusedNumber(s, nr);
      NamedTwice(s.slots[d], FreeSlot(s.slots[d]), Cut(name), nr);
      assert !DirOk(Created(s, d, name, nr), d);
    } else {
      CreatedAtKeeps(s, d, FreeSlot(s.slots[d]), Cut(name), nr);
    }
  }

  /** A name of more than 13 characters is never found, whatever has been stored. */
  lemma LongNeverFound(s: State, d: nat, name: string)
    requires Inv(s) && d in s.slots && |name| > NAME_MAX
    ensures !Has(s.slots[d], name)
  {
    hide Tree, CountOk, BitsOk;
    assert DirOk(s, d);
  }

  lemma UnlinkedKeeps(s: State, d: nat, k: nat)
    requires Inv(s) && d in s.slots && LiveAt(s.slots[d], k) && IsFile(s, s.slots[d][k].nr)
    ensures s.table[s.slots[d][k].nr].nlinks > 0 && Inv(Unlinked(s, d, k))
  {
    hide Tree, NamesDistinct, Refs;
    var n := s.slots[d][k].nr;
    var s' := Unlinked(s, d, k);
    assert DirOk(s, d) && DirOk(s, n);
    FileEntryRemoved(s, s', d, k);
    forall m: nat
      ensures CountOk(s', m)
    {
      assert CountOk(s, m);
      if m != 0 {
        RefsRemoved(s.slots, d, k, m);
      }
    }
  }

  lemma FileEntryRemoved(s: State, s': State, d: nat, k: nat)
    requires Inv(s) && d in s.slots && LiveAt(s.slots[d], k) && IsFile(s, s.slots[d][k].nr)
    requires s'.slots == s.slots[d := WithoutEntry(s.slots[d], k)] && s'.held == s.held
    requires var nr := s.slots[d][k].nr;
             && (forall n: nat | n != nr :: (n in s'.table <==> n in s.table) && (n in s'.bits <==> n in s.bits))
             && (forall n: nat | n != nr && n in s.table :: s'.table[n] == s.table[n])
             && nr in s'.table && s'.table[nr].kind == File
    ensures forall e: nat :: DirOk(s', e)
    ensures Tree(s')
  {
    hide CountOk, BitsOk, Tree;
    assert DirOk(s, d) && DirOk(s, s.slots[d][k].nr);
    assert k >= 2 by {
      assert DirOk(s, s.slots[d][0].nr) && DirOk(s, s.slots[d][1].nr);
    }
    forall e: nat
      ensures DirOk(s', e)
    {
      assert DirOk(s, e);
    }
    TreeKept(s, s', d);
  }

  // ---------- directories ----------

  lemma MkdiredCounts(s: State, d: nat, k: nat, name: string, nr: nat, m: nat)
    requires Inv(s) && d in s.slots && OpenAt(s.slots[d], k) && d in s.table && nr !in s.bits && LinksOf(s, d) < LINK_MAX
    ensures nr != d && CountOk(MkdiredAt(s, d, k, name, nr), m)
  {
    hide Tree, NamesDistinct, Refs;
    assert DirOk(s, d) && CountOk(s, m);
    UnusedNumber(s, nr);
    if m != 0 {
      var slots1 := s.slots[d := PutAt(s.slots[d], k, name, nr)];
      RefsAdded(s.slots, d, k, name, nr, m);
      RefsNewDirectory(slots1, d, nr, m);
    }
  }

  lemma MkdiredDirs(s: State, d: nat, k: nat, name: string, nr: nat)
    requires Inv(s) && d in s.slots && OpenAt(s.slots[d], k) && d in s.table && !Has(s.slots[d], name) && |name| <= NAME_MAX
    requires nr !in s.bits && nr != d
    ensures forall e: nat :: DirOk(MkdiredAt(s, d, k, name, nr), e)
  {
    hide Tree, BitsOk, CountOk;
    var s' := MkdiredAt(s, d, k, name, nr);
    UnusedNumber(s, nr);
    assert DirOk(s, d) && DirOk(s, s.slots[d][1].nr);
    forall e: nat
      ensures DirOk(s', e)
    {
      assert DirOk(s, e);
    }
  }

  lemma MkdiredTree(s: State, d: nat, k: nat, name: string, nr: nat)
    requires Inv(s) && d in s.slots && OpenAt(s.slots[d], k) && d in s.table && nr !in s.bits && nr != d
    ensures Tree(MkdiredAt(s, d, k, name, nr))
  {
    hide BitsOk, CountOk, NamesDistinct;
    var s' := MkdiredAt(s, d, k, name, nr);
    UnusedNumber(s, nr);
    assert DirOk(s, d) && DirOk(s, s.slots[d][1].nr);
    assert k >= 2;
    assert Names(s', d, k, nr);
    forall e: nat, j: nat
      ensures EntryOk(s', e, j)
    {
      MkdiredEntry(s, d, k, name, nr, e, j);
    }
    forall n: nat
      ensures ParentOk(s', n)
    {
      assert ParentOk(s, n) && DirOk(s, n);
      if n in s.slots && n != ROOT {
        var j :| Names(s, s.slots[n][1].nr, j, n);
        assert s'.slots[n][1] == s.slots[n][1];
        assert Names(s', s.slots[n][1].nr, j, n);
      } else if n == nr {
        assert s'.slots[n][1].nr == d;
      } else if n in s.slots {
        assert s'.slots[ROOT][1] == s.slots[ROOT][1];
      }
    }
  }

  lemma MkdiredEntry(s: State, d: nat, k: nat, name: string, nr: nat, e: nat, j: nat)
    requires Inv(s) && d in s.slots && OpenAt(s.slots[d], k) && d in s.table && nr !in s.bits && nr != d
    ensures EntryOk(MkdiredAt(s, d, k, name, nr), e, j)
  {
    hide BitsOk, CountOk, NamesDistinct;
    var s' := MkdiredAt(s, d, k, name, nr);
    UnusedNumber(s, nr);
    assert EntryOk(s, e, j) && DirOk(s, d) && DirOk(s, s.slots[d][1].nr);
    if e in s'.slots && LiveAt(s'.slots[e], j) && j >= 2 && s'.slots[e][j].nr in s'.slots {
      var n := s'.slots[e][j].nr;
      if n == nr {
        UnusedSlots(s, nr, e, j);
      } else {
        forall i | Names(s', e, i, n)
          ensures i == j
        {
          assert Names(s, e, i, n);
        }
      }
      forall i | Names(s', e, i, nr)
        ensures e == d && i == k
      {
        UnusedSlots(s, nr, e, i);
      }
    }
  }

  lemma UnusedSlots(s: State, nr: nat, e: nat, i: nat)
    requires Inv(s) && nr !in s.bits
    ensures !(e in s.slots && i < |s.slots[e]| && s.slots[e][i].nr == nr)
  {
    hide Tree;
    UnusedNumber(s, nr);
    InRefs(s.slots, nr, (e, i));
  }

  lemma MkdiredAtKeeps(s: State, d: nat, k: nat, name: string, nr: nat)
    requires Inv(s) && d in s.slots && OpenAt(s.slots[d], k) && d in s.table && !Has(s.slots[d], name) && |name| <= NAME_MAX
    requires nr !in s.bits && LinksOf(s, d) < LINK_MAX
    ensures nr != d && Inv(MkdiredAt(s, d, k, name, nr))
  {
    hide Tree, NamesDistinct, CountOk, DirOk;
    UnusedNumber(s, nr);
    forall m: nat
      ensures CountOk(MkdiredAt(s, d, k, name, nr), m)
    {
      MkdiredCounts(s, d, k, name, nr, m);
    }
    MkdiredDirs(s, d, k, name, nr);
    MkdiredTree(s, d, k, name, nr);
    MkdiredBits(s, d, k, name, nr);
  }

  lemma MkdiredBits(s: State, d: nat, k: nat, name: string, nr: nat)
    requires Inv(s) && d in s.slots && OpenAt(s.slots[d], k) && d in s.table && nr !in s.bits && nr != d && LinksOf(s, d) < LINK_MAX
    ensures BitsOk(MkdiredAt(s, d, k, name, nr))
  {
    hide Tree, NamesDistinct, CountOk;
    assert DirOk(s, d);
  }

  /** A directory made in a free slot: the volume stays right if and only if the parent has fewer than 255 links and the name is new. */
  lemma MkdirAtExact(s: State, d: nat, k: nat, name: string, nr: nat)
    requires Inv(s) && d in s.slots && OpenAt(s.slots[d], k) && d in s.table && |name| <= NAME_MAX && nr !in s.bits
    ensures nr != d
    ensures Inv(MkdiredAt(s, d, k, name, nr)) <==> LinksOf(s, d) < LINK_MAX && !Has(s.slots[d], name)
  {
    hide Tree, NamesDistinct, NamesShort, Refs, DirOk;
    UnusedNumber(s, nr);
    if Has(s.slots[d], name) {
      TwiceMade(s, d, k, name, nr);
    } else if LinksOf(s, d) < LINK_MAX {
      MkdiredAtKeeps(s, d, k, name, nr);
    } else {
      assert CountOk(s, d);
      ParentCounted(s, d, k, name, nr);
      assert Plus(LinksOf(s, d)) <= LinksOf(s, d);
      assert !CountOk(MkdiredAt(s, d, k, name, nr), d);
    }
  }

  lemma TwiceMade(s: State, d: nat, k: nat, name: string, nr: nat)
    requires d in s.slots && OpenAt(s.slots[d], k) && d in s.table && Has(s.slots[d], name) && nr != 0 && nr != d
    ensures !DirOk(MkdiredAt(s, d, k, name, nr), d)
  {
    NamedTwice(s.slots[d], k, name, nr);
  }

  /** sys_mkdir keeps the volume right if and only if the parent has fewer than 255 links and no entry has the name as stored. */
  lemma MkdirExact(s: State, d: nat, name: string, nr: nat)
    requires Inv(s) && d in s.slots && d in s.table && nr !in s.bits
    ensures nr != d
    ensures Inv(Mkdired(s, d, name, nr)) <==> LinksOf(s, d) < LINK_MAX && !Has(s.slots[d], Cut(name))
  {
    MkdirAtExact(s, d, FreeSlot(s.slots[d]), Cut(name), nr);
  }

  /** The ".." of a new directory is one entry more that names the parent. */
  lemma ParentCounted(s: State, d: nat, k: nat, name: string, nr: nat)
    requires Inv(s) && d in s.slots && OpenAt(s.slots[d], k) && d in s.table && nr !in s.bits && nr != d
    ensures d != 0 && |Refs(MkdiredAt(s, d, k, name, nr).slots, d)| == |Refs(s.slots, d)| + 1
  {
    hide Tree, NamesDistinct, Refs;
    assert DirOk(s, d);
    UnusedNumber(s, nr);
    RefsAdded(s.slots, d, k, name, nr, d);
    RefsNewDirectory(s.slots[d := PutAt(s.slots[d], k, name, nr)], d, nr, d);
  }

  // ---------- rmdir ----------

  /** Directory n has only its dots. */
  ghost predicate OnlyDots(s: State, n: nat) {
    n in s.slots && forall i: nat | LiveAt(s.slots[n], i) :: i < 2
  }

  /** The count loop of is_empty finds two live slots exactly if there is nothing but the dots. */
  lemma {:induction false} CountTwo(entries: seq<Slot>)
    requires |entries| >= 2 && entries[0].nr != 0 && entries[1].nr != 0
    ensures LiveCount(entries) >= 2
    ensures LiveCount(entries) == 2 <==> forall i: nat | LiveAt(entries, i) :: i < 2
  {
    var n := |entries| - 1;
    if n >= 2 {
      CountTwo(entries[..n]);
      assert forall i: nat :: LiveAt(entries[..n], i) <==> LiveAt(entries, i) && i != n;
      assert LiveAt(entries, n) <==> entries[n].nr != 0;
    } else {
      assert entries[..1][..0] == [] && entries[..1][0] == entries[0];
      assert LiveCount(entries[..1]) == 1;
    }
  }

  /** An empty directory is named by its own "." and by its entry in the parent, and by nothing else. */
  lemma EmptyNamedTwice(s: State, d: nat, k: nat, n: nat)
    requires Inv(s) && Names(s, d, k, n) && OnlyDots(s, n) && n != d
    ensures n != ROOT && |s.slots[n]| >= 2 && s.slots[n][1].nr == d && Refs(s.slots, n) == {(n, 0), (d, k)}
  {
    hide BitsOk, CountOk, NamesDistinct;
    assert DirOk(s, n) && EntryOk(s, d, k);
    forall p: (nat, nat)
      ensures p in Refs(s.slots, n) <==> p == (n, 0) || p == (d, k)
    {
      InRefs(s.slots, n, p);
      if NamesAt(s.slots, p, n) {
        NamedWhere(s, d, k, n, p.0, p.1);
      }
    }
  }

  lemma NoChild(s: State, n: nat)
    requires OnlyDots(s, n)
    ensures forall j, e :: !Names(s, n, j, e)
  {
    forall j, e
      ensures !Names(s, n, j, e)
    {
      assert Names(s, n, j, e) ==> LiveAt(s.slots[n], j);
    }
  }

  lemma NamedWhere(s: State, d: nat, k: nat, n: nat, e: nat, i: nat)
    requires Inv(s) && Names(s, d, k, n) && OnlyDots(s, n) && n != d
    requires NamesAt(s.slots, (e, i), n)
    ensures (e == n && i == 0) || (e == d && i == k)
  {
    hide BitsOk, CountOk, NamesDistinct;
    assert DirOk(s, e) && DirOk(s, n) && EntryOk(s, d, k) && EntryOk(s, e, i) && ParentOk(s, e);
    NoChild(s, n);
    if i >= 2 {
      assert LiveAt(s.slots[e], i);
      assert Names(s, d, i, n);
    }
  }

  /** The assertions of sys_rmdir hold: an empty directory has two links, and its parent keeps one. */
  lemma RmdirAsserts(s: State, d: nat, k: nat, n: nat)
    requires Inv(s) && Names(s, d, k, n) && OnlyDots(s, n) && n != d
    ensures n in s.table && s.table[n].nlinks == 2
    ensures d in s.table && s.table[d].nlinks > 1
  {
    hide Tree, NamesDistinct;
    EmptyNamedTwice(s, d, k, n);
    assert CountOk(s, n) && CountOk(s, d) && DirOk(s, n) && DirOk(s, d);
    assert Refs(s.slots, n) == {(n, 0)} + {(d, k)};
    InRefs(s.slots, d, (d, 0));
    InRefs(s.slots, d, (n, 1));
    SubsetSize({(d, 0), (n, 1)}, Refs(s.slots, d));
    assert {(d, 0), (n, 1)} == {(d, 0)} + {(n, 1)};
  }

  lemma RmdiredCounts(s: State, d: nat, k: nat, n: nat, m: nat)
    requires Inv(s) && Names(s, d, k, n) && OnlyDots(s, n) && n != d
    ensures n in s.table && d in s.table && s.table[d].nlinks > 0 && CountOk(Rmdired(s, d, k), m)
  {
    hide Tree, NamesDistinct, Refs;
    RmdirAsserts(s, d, k, n);
    EmptyNamedTwice(s, d, k, n);
    assert CountOk(s, m) && DirOk(s, n) && DirOk(s, d);
    if m != 0 {
      RefsLostDirectory(s.slots, n, m);
      RefsRemoved(s.slots - {n}, d, k, m);
    }
  }

  lemma RmdiredDirs(s: State, d: nat, k: nat, n: nat)
    requires Inv(s) && Names(s, d, k, n) && OnlyDots(s, n) && n != d && n in s.table && d in s.table && s.table[d].nlinks > 0
    ensures forall e: nat :: DirOk(Rmdired(s, d, k), e)
  {
    hide BitsOk, CountOk;
    var s' := Rmdired(s, d, k);
    assert DirOk(s, d);
    forall e: nat
      ensures DirOk(s', e)
    {
      assert DirOk(s, e);
      if e in s'.slots && s.slots[e][1].nr == n {
        assert NamesAt(s.slots, (e, 1), n);
        NamedWhere(s, d, k, n, e, 1);
      }
    }
  }

  lemma RmdiredTree(s: State, d: nat, k: nat, n: nat)
    requires Inv(s) && Names(s, d, k, n) && OnlyDots(s, n) && n != d && n in s.table && d in s.table && s.table[d].nlinks > 0
    ensures Tree(Rmdired(s, d, k))
  {
    hide BitsOk, CountOk, NamesDistinct;
    var s' := Rmdired(s, d, k);
    assert EntryOk(s, d, k) && DirOk(s, d);
    forall e: nat, j: nat
      ensures EntryOk(s', e, j)
    {
      assert EntryOk(s, e, j);
      if e in s'.slots && LiveAt(s'.slots[e], j) && j >= 2 && s'.slots[e][j].nr in s'.slots {
        forall i | Names(s', e, i, s'.slots[e][j].nr)
          ensures i == j
        {
          assert Names(s, e, i, s.slots[e][j].nr);
        }
      }
    }
    forall m: nat
      ensures ParentOk(s', m)
    {
      RmdiredParent(s, d, k, n, m);
    }
  }

  lemma RmdiredParent(s: State, d: nat, k: nat, n: nat, m: nat)
    requires Inv(s) && Names(s, d, k, n) && OnlyDots(s, n) && n != d && n in s.table && d in s.table && s.table[d].nlinks > 0
    ensures ParentOk(Rmdired(s, d, k), m)
  {
    hide BitsOk, CountOk, NamesDistinct;
    var s' := Rmdired(s, d, k);
    assert ParentOk(s, m) && DirOk(s, m) && DirOk(s, n) && DirOk(s, d);
    NoChild(s, n);
    if m in s'.slots && m != ROOT {
      var j :| Names(s, s.slots[m][1].nr, j, m);
      assert s'.slots[m][1] == s.slots[m][1];
      assert Names(s', s.slots[m][1].nr, j, m);
    } else if m in s'.slots {
      assert s'.slots[ROOT][1] == s.slots[ROOT][1];
    }
  }

  /** sys_rmdir of an empty directory that nobody holds. */
  lemma RmdiredKeeps(s: State, d: nat, k: nat, n: nat)
    requires Inv(s) && Names(s, d, k, n) && OnlyDots(s, n) && n != d && n !in s.held
    ensures n in s.table && d in s.table && s.table[d].nlinks > 0 && Inv(Rmdired(s, d, k))
  {
    hide Tree, NamesDistinct, CountOk, DirOk;
    RmdirAsserts(s, d, k, n);
    RmdiredDirs(s, d, k, n);
    RmdiredTree(s, d, k, n);
    forall m: nat
      ensures CountOk(Rmdired(s, d, k), m)
    {
      RmdiredCounts(s, d, k, n, m);
    }
  }

  // ---------- whole runs ----------

  /** A volume with only its root directory, which is its own parent and is in use from the start. */
  function Fresh(): State {
    State(map[ROOT := Node(Directory, 2)], {0, ROOT}, map[ROOT := [Slot(ROOT, "."), Slot(ROOT, "..")]], {ROOT})
  }

  lemma FreshCounts(n: nat)
    ensures CountOk(Fresh(), n)
  {
    var s := Fresh();
    forall p: (nat, nat)
      ensures p in Refs(s.slots, n) <==> n == ROOT && p in {(ROOT, 0), (ROOT, 1)}
    {
      InRefs(s.slots, n, p);
    }
    if n == ROOT {
      assert Refs(s.slots, ROOT) == {(ROOT, 0)} + {(ROOT, 1)};
    } else {
      assert Refs(s.slots, n) == {};
    }
  }

  lemma FreshTree()
    ensures Tree(Fresh())
  {}

  lemma FreshInv()
    ensures Inv(Fresh())
  {
    hide Tree, CountOk;
    FreshTree();
    forall n: nat
      ensures CountOk(Fresh(), n)
    {
      FreshCounts(n);
    }
  }

  datatype Event =
    | Create(d: nat, name: string, nr: nat)
    | Link(d: nat, name: string, n: nat)
    | Unlink(d: nat, k: nat)
    | Mkdir(d: nat, name: string, nr: nat)
    | Rmdir(d: nat, k: nat, n: nat)
    | Hold(d: nat)
    | Drop(d: nat)

  /** The calls that succeed, by the tests the code makes. */
  ghost predicate Step(s: State, e: Event, s': State) {
    match e
    case Create(d, name, nr) => d in s.slots && !Has(s.slots[d], name) && nr !in s.bits && s' == Created(s, d, name, nr)
    case Link(d, name, n) => d in s.slots && !Has(s.slots[d], name) && IsFile(s, n) && s' == Linked(s, d, name, n)
    case Unlink(d, k) =>
      && d in s.slots && LiveAt(s.slots[d], k) && IsFile(s, s.slots[d][k].nr) && LinksOf(s, s.slots[d][k].nr) > 0
      && s' == Unlinked(s, d, k)
    case Mkdir(d, name, nr) =>
      && d in s.slots && d in s.table && !Has(s.slots[d], name) && nr !in s.bits && nr != d
      && s' == Mkdired(s, d, name, nr)
    case Rmdir(d, k, n) =>
      && Names(s, d, k, n) && OnlyDots(s, n) && n != d && n !in s.held && n in s.table && d in s.table && LinksOf(s, d) > 0
      && s' == Rmdired(s, d, k)
    case Hold(d) => d in s.slots && s' == s.(held := s.held + {d})
    case Drop(d) => s' == s.(held := s.held - {d})
  }

  /** What the code does not test: a name is new as it will be stored, and the link count that goes up is below 255. */
  ghost predicate Careful(s: State, e: Event) {
    match e
    case Create(d, name, nr) => d in s.slots && !Has(s.slots[d], Cut(name))
    case Link(d, name, n) => d in s.slots && !Has(s.slots[d], Cut(name)) && LinksOf(s, n) < LINK_MAX
    case Mkdir(d, name, nr) => d in s.slots && !Has(s.slots[d], Cut(name)) && LinksOf(s, d) < LINK_MAX
    case _ => true
  }

  /** A call keeps the invariant if and only if it is careful. */
  lemma StepExact(s: State, e: Event, s': State)
    requires Inv(s) && Step(s, e, s')
    ensures Inv(s') <==> Careful(s, e)
  {
    hide Tree, CountOk, DirOk;
    match e {
      case Create(d, name, nr) => CreatedExact(s, d, name, nr);
      case Link(d, name, n) => LinkExact(s, d, name, n);
      case Unlink(d, k) => UnlinkedKeeps(s, d, k);
      case Mkdir(d, name, nr) => MkdirExact(s, d, name, nr);
      case Rmdir(d, k, n) => RmdiredKeeps(s, d, k, n);
      case Hold(d) => HeldKeeps(s, s');
      case Drop(d) => HeldKeeps(s, s');
    }
  }

  /** For names of at most 13 characters the code's own test is enough. */
  lemma ShortIsCareful(s: State, e: Event, s': State)
    requires Step(s, e, s') && (e.Create? || e.Link? || e.Mkdir?) && |e.name| <= NAME_MAX
    requires e.Link? ==> LinksOf(s, e.n) < LINK_MAX
    requires e.Mkdir? ==> LinksOf(s, e.d) < LINK_MAX
    ensures Careful(s, e)
  {}

  lemma HeldKeeps(s: State, s': State)
    requires Inv(s) && s' == s.(held := s'.held) && forall d | d in s'.held :: d in s.slots
    ensures Inv(s')
  {
    assert forall n: nat :: CountOk(s, n) ==> CountOk(s', n);
    assert forall d: nat :: DirOk(s, d) ==> DirOk(s', d);
    assert Tree(s') by {
      assert forall d: nat, k: nat, n: nat :: Names(s', d, k, n) <==> Names(s, d, k, n);
      assert forall d: nat, k: nat :: EntryOk(s, d, k) ==> EntryOk(s', d, k);
      assert forall n: nat :: ParentOk(s, n) ==> ParentOk(s', n);
    }
  }

  ghost predicate Run(ss: seq<State>, es: seq<Event>) {
    |ss| == |es| + 1 && ss[0] == Fresh() && forall n | 0 <= n < |es| :: Step(ss[n], es[n], ss[n + 1])
  }

  /** Over every run of careful calls from a new volume the link counts are exact and the directories form a tree. */
  lemma {:induction false} RunKeeps(ss: seq<State>, es: seq<Event>, n: nat)
    requires Run(ss, es) && n < |ss|
    requires forall i | 0 <= i < n :: Careful(ss[i], es[i])
    ensures Inv(ss[n])
  {
    hide Inv, Step, Careful, Fresh;
    if n > 0 {
      RunKeeps(ss, es, n - 1);
      StepExact(ss[n - 1], es[n - 1], ss[n]);
    } else {
      FreshInv();
    }
  }

  /** No entry dangles: what it names has its bit set and counts this entry. */
  lemma EntryNamesLive(s: State, d: nat, k: nat)
    requires Inv(s) && d in s.slots && LiveAt(s.slots[d], k)
    ensures s.slots[d][k].nr in s.bits && LinksOf(s, s.slots[d][k].nr) > 0
  {
    hide Tree;
    var n := s.slots[d][k].nr;
    assert CountOk(s, n);
    InRefs(s.slots, n, (d, k));
  }
}
