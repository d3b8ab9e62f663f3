/** The list of sleeping tasks, in the order of the ticks at which they are due. */
module SleepQueue {
  import opened LinkedList

  /** Some sleepers have been woken, all of them due, and the rest is still there. */
  ghost predicate WokenSoFar(before: seq<Node>, nodes: seq<Node>, woken: seq<Node>, now: int) {
    && |woken| <= |before| && woken == before[..|woken|] && nodes == before[|woken|..]
    && forall i | 0 <= i < |woken| :: woken[i].key <= now
  }

  lemma NoneWoken(before: seq<Node>, now: int)
    ensures WokenSoFar(before, before, [], now)
  {}

  lemma NextWoken(before: seq<Node>, nodes: seq<Node>, woken: seq<Node>, now: int)
    requires WokenSoFar(before, nodes, woken, now) && nodes != [] && nodes[0].key <= now
    ensures WokenSoFar(before, nodes[1..], woken + [nodes[0]], now)
  {}

  lemma AllWoken(before: seq<Node>, nodes: seq<Node>, woken: seq<Node>, now: int)
    requires WokenSoFar(before, nodes, woken, now) && SortedByKey(before) && (nodes != [] ==> nodes[0].key > now)
    ensures woken + nodes == before && SortedByKey(nodes)
    ensures forall i | 0 <= i < |woken| :: woken[i].key <= now
    ensures forall i | 0 <= i < |nodes| :: nodes[i].key > now
  {}

  ghost function Members(nodes: seq<Node>): set<Node> {
    set n | n in nodes
  }

  lemma FirstLeaves(list: List)
    requires list.Valid() && list.nodes != []
    ensures Members(list.nodes[1..]) == Members(list.nodes) - {list.nodes[0]}
  {
    assert forall i | 0 <= i < |list.nodes| :: list.nodes[i] == list.Chain()[i + 1];
  }

  lemma OneMore(nodes: seq<Node>, k: nat, task: Node)
    requires k <= |nodes|
    ensures Members(nodes[..k] + [task] + nodes[k..]) == Members(nodes) + {task}
  {
    assert nodes == nodes[..k] + nodes[k..];
  }

  /** Whole ticks of the time asked for, at least one. */
  function Ticks(ms: nat, jiffy: nat): (ticks: nat)
    requires jiffy > 0
    ensures ticks > 0 && (ticks == 1 || ticks * jiffy <= ms) && ms < (ticks + 1) * jiffy
  {
    assert ms == (ms / jiffy) * jiffy + ms % jiffy && ms < (ms / jiffy + 1) * jiffy;
    if ms / jiffy > 0 then ms / jiffy else 1
  }

  class Sleepers {
    const list: List
    /** The tasks whose condition is TASK_SLEEPING. */
    var asleep: set<Node>

    /** A task sleeps exactly as long as it is in the list. */
    ghost predicate Valid()
      reads this, list, list.Chain()
    {
      list.Valid() && SortedByKey(list.nodes) && asleep == Members(list.nodes)
    }

    constructor ()
      ensures Valid() && list.nodes == [] && fresh(list) && fresh(list.Chain())
    {
      list := new List();
      asleep := {};
    }

    /**
     * task_sleep for ms milliseconds, at tick now, with ticks of jiffy milliseconds: at least one tick, otherwise the whole
     * ticks in ms. The sleeper stands behind everybody who is due no later, and before all others.
     */
    method Sleep(ms: nat, now: nat, jiffy: nat) returns (task: Node, ghost k: nat)
      requires Valid() && jiffy > 0
      modifies this`asleep, list`nodes, list.Chain()
      ensures Valid() && fresh(task) && asleep == old(asleep) + {task}
      ensures var ticks := task.key - now;
              ticks > 0 && (ticks == 1 || ticks * jiffy <= ms) && ms < (ticks + 1) * jiffy
      ensures k <= old(|list.nodes|) && list.nodes == old(list.nodes)[..k] + [task] + old(list.nodes)[k..]
      ensures forall j | 0 <= j < |old(list.nodes)| :: old(list.nodes)[j].key <= task.key <==> j < k
    {
      hide Linked, Distinct, Members, Ticks;
      task := new Node(now + Ticks(ms, jiffy));
      ghost var before := list.nodes;
      k := list.InsertSort(task);
      OneMore(before, k, task);
      asleep := asleep + {task};
    }

    /** task_wakeup: exactly the tasks that are due are taken out, the earliest first. */
    method Wakeup(now: int) returns (woken: seq<Node>)
      requires Valid()
      modifies this`asleep, list`nodes, list.Chain()
      ensures Valid() && woken + list.nodes == old(list.nodes) && asleep == old(asleep) - Members(woken)
      ensures forall i | 0 <= i < |woken| :: woken[i].key <= now
      ensures forall i | 0 <= i < |list.nodes| :: list.nodes[i].key > now
    {
      hide Linked, Distinct, SortedByKey, WokenSoFar;
      woken := [];
      ghost var before := list.nodes;
      NoneWoken(before, now);
      var ptr := list.After(list.head, 0);
      while ptr != list.tail
        invariant list.Valid() && WokenSoFar(before, list.nodes, woken, now)
        invariant ptr == list.Chain()[1] && (ptr == list.tail <==> list.nodes == [])
        invariant |woken| <= |before| && list.nodes == before[|woken|..]
        invariant asleep == Members(list.nodes) == old(asleep) - Members(woken)
        decreases |list.nodes|
      {
        if ptr.key > now {
          break;
        }
        NextWoken(before, list.nodes, woken, now);
        assert forall i | 0 <= i < |list.nodes| :: list.nodes[i] == before[|woken| + i];
        FirstLeaves(list);
        woken := woken + [ptr];
        asleep := asleep - {ptr};
        ptr := TakeFirst(ptr);
      }
      AllWoken(before, list.nodes, woken, now);
    }

    /** Take the first sleeper out and step to the next. */
    method TakeFirst(ptr: Node) returns (next: Node)
      requires list.Valid() && list.nodes != [] && ptr == list.nodes[0]
      modifies list`nodes, list.Chain()
      ensures list.Valid() && list.nodes == old(list.nodes[1..])
      ensures next == list.Chain()[1] && (next == list.tail <==> list.nodes == [])
    {
      hide Linked, Distinct;
      next := list.After(ptr, 1);
      list.RemoveNode(ptr, 0);
    }
  }
}
