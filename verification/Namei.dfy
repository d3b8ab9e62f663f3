/** The directory calls of the file system, changing inode table, inode bitmap and directory slots in place. */
module Namei {
  import opened Creations
  import opened Limits
  import opened Links
  import opened Options
  import opened Paths

  /** The name that starts at place p of a path. */
  function NameAt(path: string, p: nat): string
    requires p <= |path|
  {
    path[p..][..FirstSeparator(path[p..])]
  }

  /** match_name: does the name at place p equal the entry's, and where does the next name start? */
  method MatchName(path: string, p: nat, entry: string) returns (matches: bool, next: nat)
    requires p <= |path| && forall i | 0 <= i < |entry| :: !IsSeparator(entry[i])
    ensures matches <==> NameAt(path, p) == entry
    ensures matches ==> next == if p + |entry| < |path| then p + |entry| + 1 else |path|
  {
    var lhs, rhs := p, 0;
    while lhs < |path| && rhs < |entry| && path[lhs] == entry[rhs]
      invariant p <= lhs <= |path| && rhs <= |entry| && lhs - p == rhs
      invariant forall i | 0 <= i < rhs :: path[p + i] == entry[i]
    {
      lhs, rhs := lhs + 1, rhs + 1;
    }
    next := p;
    assert forall i | 0 <= i < |path| - p :: path[p..][i] == path[p + i];
    if rhs < |entry| {
      return false, p;
    }
    if lhs < |path| && !IsSeparator(path[lhs]) {
      return false, p;
    }
    assert forall j | 0 <= j < rhs :: path[p..][j] == path[p + j] == entry[j];
    FirstSeparatorIs(path[p..], rhs);
    assert NameAt(path, p) == entry;
    if lhs < |path| && IsSeparator(path[lhs]) {
      lhs := lhs + 1;
    }
    return true, lhs;
  }

  /** Wherever it is asked for, allowed is what the tests of rights say: permission on the directory, the sticky bit, and for a
      link that both inodes are on one device. */
  class Volume {
    var table: map<nat, Node>
    var bits: set<nat>
    var slots: map<nat, seq<Slot>>
    /** Directories somebody has in use. */
    var held: set<nat>

    ghost function St(): State
      reads this
    {
      State(table, bits, slots, held)
    }

    ghost predicate Valid()
      reads this
    {
      Inv(St())
    }

    /** A new volume. */
    constructor ()
      ensures Valid() && St() == Fresh()
    {
      table := map[ROOT := Node(Directory, 2)];
      bits := {0, ROOT};
      slots := map[ROOT := [Slot(ROOT, "."), Slot(ROOT, "..")]];
      held := {ROOT};
      new;
      FreshInv();
    }

    /** The first live entry of directory d with the given name. */
    method FindEntry(d: nat, name: string) returns (k: Option<nat>)
      requires d in slots
      ensures k.Some? ==> LiveAt(slots[d], k.value) && slots[d][k.value].name == name
      ensures k.None? <==> !Has(slots[d], name)
    {
      var entries := slots[d];
      var i: nat := 0;
      while i < |entries|
        invariant i <= |entries| && forall j | 0 <= j < i :: !(entries[j].nr != 0 && entries[j].name == name)
      {
        if entries[i].name == name && entries[i].nr != 0 {
          assert LiveAt(entries, i);
          return Some(i);
        }
        i := i + 1;
      }
      return None;
    }

    /** Write what fits of name into the first free slot of d, or into one more at its end; the slot stays free for now. */
    method AddEntry(d: nat, name: string) returns (k: nat)
      requires d in slots
      modifies this`slots
      ensures k == FreeSlot(old(slots[d])) && slots == old(slots)[d := WithEntry(old(slots[d]), name, 0)]
    {
      k := 0;
      while k < |slots[d]| && slots[d][k].nr != 0
        invariant k <= |slots[d]| && forall j | 0 <= j < k :: slots[d][j].nr != 0
      {
        k := k + 1;
      }
      if k >= |slots[d]| {
        slots := slots[d := slots[d] + [Slot(0, Cut(name))]];
      } else {
        slots := slots[d := slots[d][k := Slot(0, Cut(name))]];
      }
    }

    /** Let slot k of d name inode nr. */
    method SetEntry(d: nat, k: nat, nr: nat)
      requires d in slots && k < |slots[d]|
      modifies this`slots
      ensures slots == old(slots)[d := old(slots[d])[k := old(slots[d][k]).(nr := nr)]]
    {
      slots := slots[d := slots[d][k := slots[d][k].(nr := nr)]];
    }

    /** The two steps together. */
    method NewEntry(d: nat, name: string, nr: nat)
      requires d in slots
      modifies this`slots
      ensures slots == old(slots)[d := WithEntry(old(slots[d]), name, nr)]
    {
      ghost var entries := slots[d];
      var k := AddEntry(d, name);
      SetEntry(d, k, nr);
      assert slots[d] == WithEntry(entries, name, nr);
    }

    /** The first half of a creation: look for the name, choose a slot. What follows may sleep. */
    method ChooseSlot(d: nat, name: string) returns (k: Option<nat>)
      requires Valid() && d in slots
      modifies this`slots
      ensures Valid()
      ensures k.None? <==> Has(old(slots[d]), name)
      ensures k.Some? ==> k.value == FreeSlot(old(slots[d])) && St() == Chosen(old(St()), d, name)
      ensures k.None? ==> St() == old(St())
    {
      hide Tree, CountOk, DirOk, BitsOk;
      var found := FindEntry(d, name);
      if found.Some? {
        return None;
      }
      ChosenKeeps(St(), d, name);
      var place := AddEntry(d, name);
      return Some(place);
    }

    /** The second half: the slot chosen gets inode nr, whether or not it is still free. */
    method ClaimSlot(d: nat, k: nat, nr: nat, kind: Kind)
      requires Valid() && Claimable(St(), Claim(d, k, "", nr, kind))
      modifies this`table, this`bits, this`slots
      ensures St() == Claimed(old(St()), Claim(d, k, "", nr, kind))
      ensures Valid() <==> old(Untouched(St(), Claim(d, k, "", nr, kind))) && (kind == Directory ==> old(LinksOf(St(), d)) < LINK_MAX)
    {
      hide Tree, CountOk, DirOk, BitsOk, Untouched;
      ClaimExact(St(), Claim(d, k, "", nr, kind));
      SetEntry(d, k, nr);
      bits := bits + {nr};
      if kind == File {
        table := table[nr := Node(File, 1)];
      } else {
        table := table[nr := Node(Directory, 2)];
        table := table[d := table[d].(nlinks := Plus(table[d].nlinks))];
        slots := slots[nr := [Slot(nr, "."), Slot(d, "..")]];
      }
    }

    /** sys_mknod, and the creating half of open, in directory d, without a sleep; nr is what ialloc finds. The volume stays right
        exactly if the name is new as it is stored. */
    method Create(d: nat, name: string, nr: nat, allowed: bool) returns (ok: bool)
      requires Valid() && d in slots && nr !in bits
      modifies this`table, this`bits, this`slots
      ensures ok <==> allowed && !Has(old(slots[d]), name)
      ensures St() == if ok then Created(old(St()), d, name, nr) else old(St())
      ensures ok ==> (Valid() <==> !Has(old(slots[d]), Cut(name)))
      ensures !ok ==> Valid()
    {
      hide Tree, CountOk, BitsOk;
      assert DirOk(St(), d);
      UnusedNumber(St(), nr);
      CreatedExact(St(), d, name, nr);
      ChooseThenClaim(St(), d, name, nr, File);
      if !allowed {
        return false;
      }
      var k := ChooseSlot(d, name);
      if k.Some? {
        ClaimSlot(d, k.value, nr, File);
      }
      return k.Some?;
    }

    /** sys_link of the existing inode n; its count must not stand at 255, and the name must be new as it is stored, for the volume
        to stay right. */
    method LinkTo(d: nat, name: string, n: nat, allowed: bool) returns (ok: bool)
      requires Valid() && d in slots && n in table && n in bits && n != 0
      modifies this`table, this`slots
      ensures ok <==> allowed && old(table[n].kind) == File && !Has(old(slots[d]), name)
      ensures St() == if ok then Linked(old(St()), d, name, n) else old(St())
      ensures ok ==> (Valid() <==> old(table[n].nlinks) < LINK_MAX && !Has(old(slots[d]), Cut(name)))
      ensures !ok ==> Valid()
    {
      hide Tree, CountOk, DirOk, BitsOk;
      if table[n].kind == Directory || !allowed {
        return false;
      }
      var found := FindEntry(d, name);
      if found.Some? {
        return false;
      }
      LinkExact(St(), d, name, n);
      NewEntry(d, name, n);
      table := table[n := table[n].(nlinks := Plus(table[n].nlinks))];
      return true;
    }

    /** sys_unlink. A name of more than 13 characters is never found. */
    method UnlinkAt(d: nat, name: string, allowed: bool) returns (ok: bool)
      requires Valid() && d in slots
      modifies this`table, this`bits, this`slots
      ensures Valid()
      ensures ok ==> allowed && exists k: nat :: LiveAt(old(slots[d]), k) && old(slots[d])[k].name == name && FileUnlinked(old(St()), d, k, St())
      ensures !ok ==> St() == old(St())
      ensures |name| > NAME_MAX ==> !ok
      ensures !ok && allowed ==> forall k: nat :: LiveAt(slots[d], k) && slots[d][k].name == name ==> slots[d][k].nr in slots
    {
      hide Tree, CountOk, BitsOk;
      assert |name| > NAME_MAX ==> !Has(slots[d], name) by {
        assert DirOk(St(), d);
      }
      var found := FindEntry(d, name);
      if found.None? || !allowed {
        return false;
      }
      var k := found.value;
      var n := slots[d][k].nr;
      EntryNamesLive(St(), d, k);
      assert DirOk(St(), d) && DirOk(St(), n);
      if table[n].kind == Directory {
        return false;
      }
      UnlinkedKeeps(St(), d, k);
      SetEntry(d, k, 0);
      table := table[n := table[n].(nlinks := table[n].nlinks - 1)];
      if table[n].nlinks == 0 {
        bits := bits - {n};
      }
      assert FileUnlinked(old(St()), d, k, St());
      return true;
    }

    /** sys_mkdir without a sleep; the parent's count must not stand at 255, and the name must be new as it is stored, for the
        volume to stay right. */
    method MakeDirectory(d: nat, name: string, nr: nat, allowed: bool) returns (ok: bool)
      requires Valid() && d in slots && nr !in bits
      modifies this`table, this`bits, this`slots
      ensures ok <==> allowed && !Has(old(slots[d]), name)
      ensures old(d in table) && nr != d
      ensures St() == if ok then Mkdired(old(St()), d, name, nr) else old(St())
      ensures ok ==> (Valid() <==> old(LinksOf(St(), d)) < LINK_MAX && !Has(old(slots[d]), Cut(name)))
      ensures !ok ==> Valid()
    {
      hide Tree, CountOk, BitsOk;
      assert DirOk(St(), d);
      UnusedNumber(St(), nr);
      ChooseThenClaim(St(), d, name, nr, Directory);
      ghost var s := St();
      if !allowed {
        return false;
      }
      var k := ChooseSlot(d, name);
      if k.Some? {
        MkdirExact(s, d, name, nr);
        ClaimSlot(d, k.value, nr, Directory);
      }
      return k.Some?;
    }

    /** The loop of is_empty. */
    method IsEmpty(n: nat) returns (r: bool)
      requires n in slots
      ensures r <==> |slots[n]| >= 2 && LiveCount(slots[n]) == 2
    {
      var entries := slots[n];
      if |entries| < 2 {
        return false;
      }
      var i, count := 0, 0;
      while i < |entries|
        invariant i <= |entries| && count == LiveCount(entries[..i])
      {
        assert entries[..i + 1][..i] == entries[..i];
        if entries[i].nr != 0 {
          count := count + 1;
        }
        i := i + 1;
      }
      assert entries[..i] == entries;
      return count == 2;
    }

    /** sys_rmdir. It succeeds exactly for a directory that holds only its dots, is nobody's, and is not d itself. */
    method RemoveDirectory(d: nat, name: string, allowed: bool) returns (ok: bool)
      requires Valid() && d in slots
      modifies this`table, this`bits, this`slots
      ensures Valid()
      ensures ok <==> allowed && exists k, n :: Removable(old(St()), d, name, k, n)
      ensures ok ==> exists k, n :: Removable(old(St()), d, name, k, n) && DirectoryRemoved(old(St()), d, k, n, St())
      ensures !ok ==> St() == old(St())
      ensures |name| > NAME_MAX ==> !ok
    {
      hide Tree, CountOk, BitsOk, NamesDistinct;
      assert |name| > NAME_MAX ==> !Has(slots[d], name) by {
        assert DirOk(St(), d);
      }
      var found := FindEntry(d, name);
      if found.None? || !allowed {
        return false;
      }
      var k := found.value;
      var n := slots[d][k].nr;
      OneNamed(St(), d, name, k);
      EntryNamesLive(St(), d, k);
      assert DirOk(St(), d) && DirOk(St(), n);
      if n == d || table[n].kind != Directory || n in held {
        return false;
      }
      var empty := IsEmpty(n);
      assert DirOk(St(), slots[n][1].nr);
      CountTwo(slots[n]);
      if !empty {
        return false;
      }
      OrdinaryEntry(St(), d, k);
      RmdirAsserts(St(), d, k, n);
      assert table[n].nlinks == 2;
      RmdiredKeeps(St(), d, k, n);
      assert Removable(St(), d, name, k, n);
      bits := bits - {n};
      table := table[n := table[n].(nlinks := 0)];
      table := table[d := table[d].(nlinks := table[d].nlinks - 1)];
      assert table[d].nlinks > 0;
      slots := slots - {n};
      SetEntry(d, k, 0);
      assert DirectoryRemoved(old(St()), d, k, n, St());
      return true;
    }
  }

  ghost predicate FileUnlinked(s: State, d: nat, k: nat, s': State) {
    && d in s.slots && LiveAt(s.slots[d], k) && IsFile(s, s.slots[d][k].nr) && s.table[s.slots[d][k].nr].nlinks > 0
    && s' == Unlinked(s, d, k)
  }

  /** Slot k of d has this name and names a directory n that can be removed. */
  ghost predicate Removable(s: State, d: nat, name: string, k: nat, n: nat) {
    && d in s.slots && LiveAt(s.slots[d], k) && s.slots[d][k].name == name && s.slots[d][k].nr == n
    && n != d && OnlyDots(s, n) && n !in s.held
  }

  ghost predicate DirectoryRemoved(s: State, d: nat, k: nat, n: nat, s': State) {
    && d in s.slots && k < |s.slots[d]| && s.slots[d][k].nr == n && n != d
    && n in s.table && d in s.table && s.table[d].nlinks > 0
    && s' == Rmdired(s, d, k)
  }

  /** Only one live slot of a directory has a name. */
  lemma OneNamed(s: State, d: nat, name: string, k: nat)
    requires Inv(s) && d in s.slots && LiveAt(s.slots[d], k) && s.slots[d][k].name == name
    ensures forall j, n :: Removable(s, d, name, j, n) ==> j == k && n == s.slots[d][k].nr
  {
    hide Tree, CountOk, BitsOk;
    assert DirOk(s, d);
  }

  /** An entry that names an empty directory other than its own is none of the dots. */
  lemma OrdinaryEntry(s: State, d: nat, k: nat)
    requires Inv(s) && d in s.slots && LiveAt(s.slots[d], k) && s.slots[d][k].nr != d && OnlyDots(s, s.slots[d][k].nr)
    ensures Names(s, d, k, s.slots[d][k].nr)
  {
    hide CountOk, BitsOk, NamesDistinct;
    assert DirOk(s, d) && ParentOk(s, d);
    NoChild(s, s.slots[d][k].nr);
  }
}
