/** A run whose last link makes a link count wrong: the count is one byte wide. */
module LinkLimit {
  import opened Limits
  import opened Links

  /** The i-th of 256 names of two characters. */
  function Name(i: nat): string
    requires i < 256
  {
    [('a' as int + i / 16) as char, ('a' as int + i % 16) as char]
  }

  lemma NamesDiffer(i: nat, j: nat)
    requires i < 256 && j < 256 && Name(i) == Name(j)
    ensures i == j
  {
    assert Name(i)[0] == Name(j)[0] && Name(i)[1] == Name(j)[1];
    assert i / 16 == j / 16 && i % 16 == j % 16;
  }

  /** The root's entries when file 2 has n names. */
  function Entries(n: nat): seq<Slot>
    requires n <= 256
  {
    [Slot(ROOT, "."), Slot(ROOT, "..")] + seq(n, (i: nat) requires i < n => Slot(2, Name(i)))
  }

  /** A new volume with one file that has n names in the root. */
  function Linkful(n: nat): State
    requires 0 < n < 256
  {
    Fresh().(table := Fresh().table[2 := Node(File, n)], bits := {0, ROOT, 2}, slots := map[ROOT := Entries(n)])
  }

  lemma NextEntry(n: nat)
    requires n < 256
    ensures WithEntry(Entries(n), Name(n), 2) == Entries(n + 1) && !Has(Entries(n), Name(n))
  {
    NoFreeSlot(Entries(n));
    forall i: nat | LiveAt(Entries(n), i)
      ensures Entries(n)[i].name != Name(n)
    {
      if i >= 2 && Name(i - 2) == Name(n) {
        NamesDiffer(i - 2, n);
      }
    }
  }

  lemma FirstName()
    ensures Created(Fresh(), ROOT, Name(0), 2) == Linkful(1) && !Has(Fresh().slots[ROOT], Name(0))
  {
    NextEntry(0);
    assert Fresh().slots[ROOT] == Entries(0);
    assert Created(Fresh(), ROOT, Name(0), 2).slots == map[ROOT := Entries(1)];
  }

  lemma NextName(n: nat)
    requires 0 < n < 255
    ensures Linked(Linkful(n), ROOT, Name(n), 2) == Linkful(n + 1) && !Has(Linkful(n).slots[ROOT], Name(n))
  {
    NextEntry(n);
    assert Linked(Linkful(n), ROOT, Name(n), 2).table == Linkful(n + 1).table;
    assert Linked(Linkful(n), ROOT, Name(n), 2).slots == Linkful(n + 1).slots;
  }

  /** A file with n names is reached by creating it and linking it n - 1 times. */
  lemma {:induction false} LinkRun(n: nat) returns (ss: seq<State>, es: seq<Event>)
    requires 0 < n < 256
    ensures Run(ss, es) && |es| == n && ss[n] == Linkful(n) && Inv(ss[n])
    decreases n
  {
    if n == 1 {
      FirstName();
      FreshInv();
      CreatedExact(Fresh(), ROOT, Name(0), 2);
      ss, es := [Fresh(), Linkful(1)], [Create(ROOT, Name(0), 2)];
    } else {
      ss, es := LinkRun(n - 1);
      NextName(n - 1);
      ghost var e := Link(ROOT, Name(n - 1), 2);
      assert Step(Linkful(n - 1), e, Linkful(n));
      LinkExact(Linkful(n - 1), ROOT, Name(n - 1), 2);
      ss, es := ss + [Linkful(n)], es + [e];
    }
  }

  /** After 255 names the next link succeeds, sets the count to zero, and breaks the volume. */
  lemma CountOverflows() returns (ss: seq<State>, es: seq<Event>)
    ensures Run(ss, es) && |es| == 256 && Inv(ss[255]) && es[255] == Link(ROOT, Name(255), 2)
    ensures LinksOf(ss[255], 2) == 255 && LinksOf(ss[256], 2) == 0 && !Inv(ss[256])
  {
    hide Inv;
    ss, es := LinkRun(255);
    NextEntry(255);
    LinkExact(Linkful(255), ROOT, Name(255), 2);
    var last := Linked(Linkful(255), ROOT, Name(255), 2);
    assert Step(Linkful(255), Link(ROOT, Name(255), 2), last);
    ss, es := ss + [last], es + [Link(ROOT, Name(255), 2)];
  }
}
