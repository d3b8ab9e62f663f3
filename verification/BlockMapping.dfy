/**
 * Mapping a block of a file: the missing zones on the way to its slot are taken from the allocator, top
 * down, the lowest free zone each time. What the allocator hands out is not cleared.
 */
module BlockMapping {
  import opened BlockTree
  import opened Options
  import opened FiniteSets

  ghost function FreeZones(v: Volume): set<nat> {
    Interval(v.first, v.zones) - v.used
  }

  /** The zone that balloc takes next. */
  ghost function NextFree(v: Volume): Word
    requires Shaped(v) && FreeZones(v) != {}
  {
    Least(FreeZones(v))
  }

  /** Take a zone for slot p if nothing is held there. None: no data zone is left. */
  ghost function FillAt(v: Volume, n: nat, p: Pos): (r: Option<Volume>)
    requires Shaped(v) && n in v.inodes
    ensures r.Some? ==> Shaped(r.value) && r.value.inodes.Keys == v.inodes.Keys
    ensures r.Some? ==> r.value.first == v.first && r.value.zones == v.zones && v.used <= r.value.used
  {
    if ZoneAt(v, n, p) != 0 then Some(v)
    else if FreeZones(v) == {} then None
    else Some(Attach(v, n, p, NextFree(v)))
  }

  /** Do so for every slot from the inode down to p. */
  ghost function Filled(v: Volume, n: nat, p: Pos): (r: Option<Volume>)
    requires Shaped(v) && n in v.inodes
    ensures r.Some? ==> Shaped(r.value) && r.value.inodes.Keys == v.inodes.Keys
    ensures r.Some? ==> r.value.first == v.first && r.value.zones == v.zones && v.used <= r.value.used
    decreases p.Depth(), 1
  {
    match BeforeFill(v, n, p)
    case None => None
    case Some(w) => FillAt(w, n, p)
  }

  /** The volume once everything above p is there. */
  ghost function BeforeFill(v: Volume, n: nat, p: Pos): (r: Option<Volume>)
    requires Shaped(v) && n in v.inodes
    ensures r.Some? ==> Shaped(r.value) && r.value.inodes.Keys == v.inodes.Keys
    ensures r.Some? ==> r.value.first == v.first && r.value.zones == v.zones && v.used <= r.value.used
    decreases p.Depth(), 0
  {
    if p.Root() then Some(v) else Filled(v, n, p.Parent())
  }

  /** Every zone that is taken as an index block on the way to p reads as zeros when it is taken. */
  ghost predicate CleanFill(v: Volume, n: nat, p: Pos)
    requires Shaped(v) && n in v.inodes
    decreases p.Depth()
  {
    && (p.Root() || CleanFill(v, n, p.Parent()))
    && (p.IsIndex() ==>
          match BeforeFill(v, n, p)
          case None => true
          case Some(w) => ZoneAt(w, n, p) == 0 && FreeZones(w) != {} ==> ZeroIndex(w.disk[NextFree(w)]))
  }

  // ---------- whatever the volume looks like ----------

  /** Filling an empty slot moves nothing that is held, even when zones are shared. */
  lemma {:induction false} AttachMovesNothing(v: Volume, n: nat, p: Pos, z: Word, m: nat, q: Pos)
    requires Shaped(v) && n in v.inodes && m in v.inodes && ZoneAt(v, n, p) == 0
    requires !p.Root() ==> ZoneAt(v, n, p.Parent()) != 0
    ensures ZoneAt(v, m, q) != 0 ==> ZoneAt(Attach(v, n, p, z), m, q) == ZoneAt(v, m, q)
    decreases q.Depth()
  {
    if ZoneAt(v, m, q) != 0 && !q.Root() {
      AttachMovesNothing(v, n, p, z, m, q.Parent());
      if !p.Root() {
        var y := ZoneAt(v, n, p.Parent());
        SetEntryGet(v.disk[y], p.Place(), z, q.Place());
      }
    }
  }

  /** The slot itself holds the zone afterwards. */
  lemma AttachHolds(v: Volume, n: nat, p: Pos, z: Word)
    requires Shaped(v) && n in v.inodes && ZoneAt(v, n, p) == 0
    requires !p.Root() ==> ZoneAt(v, n, p.Parent()) != 0
    ensures ZoneAt(Attach(v, n, p, z), n, p) == z
  {
    if !p.Root() {
      AttachMovesNothing(v, n, p, z, n, p.Parent());
      SetEntryGet(v.disk[ZoneAt(v, n, p.Parent())], p.Place(), z, p.Place());
    }
  }

  /** A mapped slot holds a zone. */
  lemma {:induction false} FilledHolds(v: Volume, n: nat, p: Pos)
    requires Shaped(v) && n in v.inodes
    ensures var w := BeforeFill(v, n, p); w.Some? && !p.Root() ==> ZoneAt(w.value, n, p.Parent()) != 0
    ensures var w := Filled(v, n, p); w.Some? ==> ZoneAt(w.value, n, p) != 0
    decreases p.Depth()
  {
    if !p.Root() {
      FilledHolds(v, n, p.Parent());
    }
    var u := BeforeFill(v, n, p);
    if u.Some? && ZoneAt(u.value, n, p) == 0 && FreeZones(u.value) != {} {
      AttachHolds(u.value, n, p, NextFree(u.value));
    }
  }

  /** Once two slots share a zone, or one holds a zone that is not marked, filling more slots does not mend it. */
  lemma AttachMendsNothing(v: Volume, n: nat, p: Pos, z: Word)
    requires Shaped(v) && Attachable(v, n, p, z)
    ensures Sound(Attach(v, n, p, z)) ==> Sound(v)
  {
    var v' := Attach(v, n, p, z);
    if Sound(v') {
      AttachHolds(v, n, p, z);
      forall m, q: Pos | m in v.inodes && ZoneAt(v, m, q) != 0
        ensures ZoneAt(v', m, q) == ZoneAt(v, m, q) != z
      {
        AttachMovesNothing(v, n, p, z, m, q);
        assert m != n || q != p;
      }
    }
  }

  lemma NextFreeAttachable(v: Volume, n: nat, p: Pos)
    requires Shaped(v) && n in v.inodes && FreeZones(v) != {}
    requires ZoneAt(v, n, p) == 0 && (!p.Root() ==> ZoneAt(v, n, p.Parent()) != 0)
    ensures Attachable(v, n, p, NextFree(v))
  {}

  // ---------- exactly when mapping a block keeps the volume sound ----------

  lemma GrownLower(v: Volume, v': Volume, n: nat, p: Pos, q: Pos)
    requires Grown(v, v', n, p) && !q.Root() && q.Parent() == p
    ensures Grown(v, v', n, q)
  {
    assert forall r: Pos :: r.Above(p) ==> r.Above(q);
  }

  lemma {:induction false} CleanFillKeeps(v: Volume, n: nat, p: Pos)
    requires Sound(v) && n in v.inodes && CleanFill(v, n, p)
    ensures var w := Filled(v, n, p);
            w.Some? ==> Sound(w.value) && Grown(v, w.value, n, p) && (NoLeaks(v) ==> NoLeaks(w.value))
    decreases p.Depth()
  {
    hide NoSharing, Marked, NoLeaks, Grown;
    if Filled(v, n, p).Some? {
      var u := BeforeFill(v, n, p).value;
      FilledHolds(v, n, p);
      if p.Root() {
        GrownNothing(v, n, p);
      } else {
        CleanFillKeeps(v, n, p.Parent());
        GrownLower(v, u, n, p.Parent(), p);
      }
      if ZoneAt(u, n, p) == 0 {
        var z := NextFree(u);
        NextFreeAttachable(u, n, p);
        AttachKeepsSound(u, n, p, z);
        GrownAttach(v, u, n, p, p, z);
        if NoLeaks(v) {
          AttachKeepsNoLeaks(u, n, p, z);
        }
      }
    }
  }

  lemma GrownNothing(v: Volume, n: nat, p: Pos)
    requires Shaped(v) && n in v.inodes
    ensures Grown(v, v, n, p)
  {}

  /** Mapping a block keeps zones marked and unshared exactly when every index block it takes reads as zeros. */
  lemma {:induction false} FillExact(v: Volume, n: nat, p: Pos)
    requires Sound(v) && NoLeaks(v) && n in v.inodes && Filled(v, n, p).Some?
    ensures Sound(Filled(v, n, p).value) <==> CleanFill(v, n, p)
    decreases p.Depth()
  {
    hide NoSharing, Marked, NoLeaks;
    if CleanFill(v, n, p) {
      CleanFillKeeps(v, n, p);
      return;
    }
    var u := BeforeFill(v, n, p).value;
    FilledHolds(v, n, p);
    if p.Root() || CleanFill(v, n, p.Parent()) {
      if !p.Root() {
        CleanFillKeeps(v, n, p.Parent());
      }
      NextFreeAttachable(u, n, p);
      StaleIndexBlock(u, n, p, NextFree(u));
    } else {
      FillExact(v, n, p.Parent());
      if ZoneAt(u, n, p) == 0 {
        NextFreeAttachable(u, n, p);
        AttachMendsNothing(u, n, p, NextFree(u));
      }
    }
  }

  // ---------- exactly when there are enough zones ----------

  /** The slots from the inode down to p. */
  ghost function Path(p: Pos): set<Pos>
    decreases p.Depth()
  {
    (if p.Root() then {} else Path(p.Parent())) + {p}
  }

  /** The slots of s where inode n holds nothing. */
  ghost function Missing(v: Volume, n: nat, s: set<Pos>): set<Pos>
    requires Shaped(v) && n in v.inodes
  {
    set q | q in s && ZoneAt(v, n, q) == 0
  }

  /** How many more slots of s are missing than there are free zones. */
  ghost function Shortage(v: Volume, n: nat, s: set<Pos>): int
    requires Shaped(v) && n in v.inodes
  {
    |Missing(v, n, s)| - |FreeZones(v)|
  }

  lemma AttachTakesOne(v: Volume, n: nat, p: Pos, z: Word, s: set<Pos>)
    requires Sound(v) && Attachable(v, n, p, z) && (p.IsIndex() ==> ZeroIndex(v.disk[z])) && p in s
    ensures Shortage(Attach(v, n, p, z), n, s) == Shortage(v, n, s)
    ensures Missing(Attach(v, n, p, z), n, s) == Missing(v, n, s) - {p}
  {
    var v' := Attach(v, n, p, z);
    assert FreeZones(v') == FreeZones(v) - {z};
    forall q | q in s
      ensures ZoneAt(v', n, q) == if q == p then z else ZoneAt(v, n, q)
    {
      AttachChangesOneSlot(v, n, p, z, n, q);
    }
    assert Missing(v', n, s) == Missing(v, n, s) - {p};
  }

  lemma FillAtBalance(v: Volume, n: nat, p: Pos, s: set<Pos>)
    requires Sound(v) && n in v.inodes && p in s && (!p.Root() ==> ZoneAt(v, n, p.Parent()) != 0)
    requires p.IsIndex() && ZoneAt(v, n, p) == 0 && FreeZones(v) != {} ==> ZeroIndex(v.disk[NextFree(v)])
    ensures match FillAt(v, n, p)
            case None => Shortage(v, n, s) > 0
            case Some(w) => Shortage(w, n, s) == Shortage(v, n, s) && Missing(w, n, s) == Missing(v, n, s) - {p}
  {
    if ZoneAt(v, n, p) == 0 {
      if FreeZones(v) == {} {
        assert p in Missing(v, n, s);
      } else {
        NextFreeAttachable(v, n, p);
        AttachTakesOne(v, n, p, NextFree(v), s);
      }
    }
  }

  /** As long as it works, mapping takes as many zones as it fills slots; it stops working with no free zone and a slot to fill. */
  lemma {:induction false} FillBalance(v: Volume, n: nat, p: Pos, s: set<Pos>)
    requires Sound(v) && n in v.inodes && CleanFill(v, n, p) && Path(p) <= s
    ensures match Filled(v, n, p)
            case None => Shortage(v, n, s) > 0
            case Some(w) => Shortage(w, n, s) == Shortage(v, n, s) && Missing(w, n, Path(p)) == {}
                            && Missing(w, n, s) <= Missing(v, n, s)
    decreases p.Depth()
  {
    hide NoSharing, Marked, FillAt, Shortage, FreeZones;
    if !p.Root() {
      FillBalance(v, n, p.Parent(), s);
      CleanFillKeeps(v, n, p.Parent());
    }
    match BeforeFill(v, n, p)
    case None =>
    case Some(u) =>
      FilledHolds(v, n, p);
      FillAtBalance(u, n, p, s);
      FillAtBalance(u, n, p, Path(p));
  }

  /** A block can be mapped exactly when there are as many free zones as empty slots on its path. */
  lemma FillSucceeds(v: Volume, n: nat, p: Pos)
    requires Sound(v) && n in v.inodes && CleanFill(v, n, p)
    ensures Filled(v, n, p).Some? <==> |Missing(v, n, Path(p))| <= |FreeZones(v)|
  {
    FillBalance(v, n, p, Path(p));
  }
}
