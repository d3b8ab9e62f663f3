/** A run in which a directory gets two entries of one name: a long name is cut when it is stored, and not when it is looked for. */
module LongNames {
  import opened Limits
  import opened Links

  const DOTS := [Slot(ROOT, "."), Slot(ROOT, "..")]

  /**
   * Any name of more than 13 characters, created twice in a new volume: both calls succeed, the root has two live entries of
   * one name, and neither is ever found by the name it was created with.
   */
  lemma CreatedTwice(name: string) returns (ss: seq<State>)
    requires |name| > NAME_MAX
    ensures Run(ss, [Create(ROOT, name, 2), Create(ROOT, name, 3)]) && Inv(ss[1]) && !Inv(ss[2])
    ensures ROOT in ss[1].slots && !Has(ss[1].slots[ROOT], name)
    ensures ROOT in ss[2].slots && ss[2].slots[ROOT] == DOTS + [Slot(2, Cut(name)), Slot(3, Cut(name))]
    ensures !Has(ss[2].slots[ROOT], name)
  {
    hide Inv;
    FreshInv();
    NoFreeSlot(DOTS);
    NoFreeSlot(DOTS + [Slot(2, Cut(name))]);
    var s0 := Fresh();
    var s1 := Created(s0, ROOT, name, 2);
    assert s1.slots[ROOT] == DOTS + [Slot(2, Cut(name))];
    CreatedExact(s0, ROOT, name, 2);
    LongNeverFound(s1, ROOT, name);
    var s2 := Created(s1, ROOT, name, 3);
    assert s2.slots[ROOT] == DOTS + [Slot(2, Cut(name)), Slot(3, Cut(name))];
    assert LiveAt(s1.slots[ROOT], 2) && s1.slots[ROOT][2].name == Cut(name);
    CreatedExact(s1, ROOT, name, 3);
    ss := [s0, s1, s2];
  }
}
