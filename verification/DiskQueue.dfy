/** A block device's request list as the kernel keeps it: linked requests, a direction, and tasks asleep. */
module DiskQueue {
  import opened Options
  import opened LinkedList
  import opened Elevator

  /** The requests behind the nodes of a list; number holds their arrival numbers. */
  ghost function Requests(nodes: seq<Node>, number: map<Node, nat>): (q: seq<Request>)
    requires forall node | node in nodes :: node in number
    ensures |q| == |nodes|
  {
    seq(|nodes|, i requires 0 <= i < |nodes| => Request(number[nodes[i]], nodes[i].key))
  }

  ghost function Numbers(nodes: set<Node>, number: map<Node, nat>): set<nat>
    requires forall node | node in nodes :: node in number
  {
    set node | node in nodes :: number[node]
  }

  /** Everybody who made a request is asleep, but for one. */
  ghost predicate OneOwner(nodes: seq<Node>, asleep: set<Node>, turn: Node?) {
    && (turn == null <==> nodes == [])
    && (turn != null ==> turn in nodes && turn !in asleep)
    && (forall node | node in asleep :: node in nodes)
    && (forall node | node in nodes && node != turn :: node in asleep)
  }

  lemma OwnerPassed(nodes: seq<Node>, asleep: set<Node>, a: nat, next: Node?)
    requires Distinct(nodes) && a < |nodes| && OneOwner(nodes, asleep, nodes[a])
    requires if |nodes| == 1 then next == null else next != null && next in nodes && next != nodes[a]
    ensures OneOwner(nodes[..a] + nodes[a + 1..], if next == null then asleep else asleep - {next}, next)
    ensures next != null ==> next in asleep
  {
    var rest := nodes[..a] + nodes[a + 1..];
    forall node | node in nodes && node != nodes[a]
      ensures node in rest
    {
      var i :| 0 <= i < |nodes| && nodes[i] == node;
      assert rest[if i < a then i else i - 1] == node;
    }
  }

  lemma OwnerJoined(nodes: seq<Node>, asleep: set<Node>, turn: Node?, k: nat, req: Node)
    requires OneOwner(nodes, asleep, turn) && req !in nodes && k <= |nodes|
    ensures var all := nodes[..k] + [req] + nodes[k..];
            if nodes == [] then OneOwner(all, asleep, req) else OneOwner(all, asleep + {req}, turn)
  {
    var all := nodes[..k] + [req] + nodes[k..];
    assert all[k] == req;
    assert forall node | node in nodes :: node in nodes[..k] || node in nodes[k..];
  }

  lemma AsleepListed(nodes: seq<Node>, asleep: set<Node>, turn: Node?)
    requires OneOwner(nodes, asleep, turn)
    ensures forall node | node in asleep :: node in nodes
    ensures turn == null <==> nodes == []
    ensures turn != null ==> turn in nodes && turn !in asleep
  {}

  lemma ListDistinct(list: List)
    requires list.Valid()
    ensures Distinct(list.nodes)
  {
    assert forall i | 0 <= i < |list.nodes| :: list.nodes[i] == list.Chain()[i + 1];
  }

  lemma RequestAt(nodes: seq<Node>, number: map<Node, nat>, i: nat)
    requires i < |nodes| && forall node | node in nodes :: node in number
    ensures Requests(nodes, number)[i] == Request(number[nodes[i]], nodes[i].key)
  {}

  ghost predicate Numbered(nodes: seq<Node>, number: map<Node, nat>, arrivals: nat) {
    forall node | node in nodes :: node in number && number[node] < arrivals
  }

  ghost predicate OneEach(nodes: seq<Node>, number: map<Node, nat>)
    requires forall node | node in nodes :: node in number
  {
    forall p, q | p in nodes && q in nodes && number[p] == number[q] :: p == q
  }

  lemma PlacesAgree(nodes: seq<Node>, number: map<Node, nat>, key: int, at: nat)
    requires at <= |nodes| && forall node | node in nodes :: node in number
    requires forall j | 0 <= j < at :: nodes[j].key <= key
    requires at < |nodes| ==> nodes[at].key > key
    ensures at == InsertPlace(Requests(nodes, number), key)
  {
    var q := Requests(nodes, number);
    assert forall j | 0 <= j < |q| :: q[j].idx == nodes[j].key;
  }

  lemma OneEachInserted(nodes: seq<Node>, number: map<Node, nat>, arrivals: nat, req: Node, k: nat)
    requires Numbered(nodes, number, arrivals) && OneEach(nodes, number) && req !in nodes && k <= |nodes|
    ensures var all, number' := nodes[..k] + [req] + nodes[k..], number[req := arrivals];
            Numbered(all, number', arrivals + 1) && OneEach(all, number')
  {
    var all, number' := nodes[..k] + [req] + nodes[k..], number[req := arrivals];
    forall node | node in all && node != req
      ensures node in nodes
    {}
  }

  lemma RequestsInserted(nodes: seq<Node>, number: map<Node, nat>, n: nat, req: Node, k: nat)
    requires (forall node | node in nodes :: node in number) && req !in nodes && k <= |nodes|
    ensures var all, number', q := nodes[..k] + [req] + nodes[k..], number[req := n], Requests(nodes, number);
            && (forall node | node in all :: node in number')
            && Requests(all, number') == q[..k] + [Request(n, req.key)] + q[k..]
  {
    var all, number', q := nodes[..k] + [req] + nodes[k..], number[req := n], Requests(nodes, number);
    forall node | node in all && node != req
      ensures node in nodes
    {}
    forall j | 0 <= j < |all|
      ensures Requests(all, number')[j] == (q[..k] + [Request(n, req.key)] + q[k..])[j]
    {
      assert all[j] == if j < k then nodes[j] else if j == k then req else nodes[j - 1];
    }
  }

  lemma RequestsRemoved(nodes: seq<Node>, number: map<Node, nat>, arrivals: nat, a: nat)
    requires Numbered(nodes, number, arrivals) && OneEach(nodes, number) && a < |nodes|
    ensures var rest, q := nodes[..a] + nodes[a + 1..], Requests(nodes, number);
            && Numbered(rest, number, arrivals) && OneEach(rest, number)
            && Requests(rest, number) == q[..a] + q[a + 1..]
  {
    var rest, q := nodes[..a] + nodes[a + 1..], Requests(nodes, number);
    forall node | node in rest
      ensures node in nodes
    {}
    forall j | 0 <= j < |rest|
      ensures Requests(rest, number)[j] == (q[..a] + q[a + 1..])[j]
    {
      assert rest[j] == if j < a then nodes[j] else nodes[j + 1];
    }
  }

  lemma NumbersWith(asleep: set<Node>, number: map<Node, nat>, req: Node, n: nat)
    requires req !in asleep && forall node | node in asleep :: node in number
    ensures Numbers(asleep, number[req := n]) == Numbers(asleep, number)
    ensures Numbers(asleep + {req}, number[req := n]) == Numbers(asleep, number) + {n}
  {
    forall x | x in Numbers(asleep, number) + {n}
      ensures x in Numbers(asleep + {req}, number[req := n])
    {
      if x == n {
        assert number[req := n][req] == n;
      } else {
        var node :| node in asleep && number[node] == x;
        assert number[req := n][node] == x;
      }
    }
    forall x | x in Numbers(asleep, number)
      ensures x in Numbers(asleep, number[req := n])
    {
      var node :| node in asleep && number[node] == x;
      assert number[req := n][node] == x;
    }
  }

  lemma NumbersWithout(asleep: set<Node>, nodes: seq<Node>, number: map<Node, nat>, arrivals: nat, woken: Node)
    requires Numbered(nodes, number, arrivals) && OneEach(nodes, number) && woken in nodes && forall node | node in asleep :: node in nodes
    ensures Numbers(asleep - {woken}, number) == Numbers(asleep, number) - {number[woken]}
  {
    forall x | x in Numbers(asleep, number) && x != number[woken]
      ensures x in Numbers(asleep - {woken}, number)
    {
      var node :| node in asleep && number[node] == x;
      assert node in asleep - {woken};
    }
  }

  /** The fields that say who may use the disk. */
  datatype Ledger = Ledger(asleep: set<Node>, turn: Node?, serving: bool, number: map<Node, nat>, arrivals: nat,
                           done: seq<Request>)

  ghost predicate Agrees(nodes: seq<Node>, l: Ledger) {
    Numbered(nodes, l.number, l.arrivals) && OneEach(nodes, l.number) && OneOwner(nodes, l.asleep, l.turn)
  }

  /** A request list and a direction as a state of the elevator. */
  ghost function StateOf(nodes: seq<Node>, dir: Direction, l: Ledger): State
    requires Agrees(nodes, l)
  {
    AsleepListed(nodes, l.asleep, l.turn);
    State(Requests(nodes, l.number), dir, if l.turn == null then None else Some(l.number[l.turn]), l.serving,
          Numbers(l.asleep, l.number), l.arrivals, l.done)
  }

  function Joined(l: Ledger, req: Node, empty: bool): Ledger {
    var l' := l.(number := l.number[req := l.arrivals], arrivals := l.arrivals + 1);
    if empty then l'.(turn := req, serving := true) else l'.(asleep := l.asleep + {req})
  }

  function Passed(l: Ledger, r: Request, next: Node?): Ledger {
    var l' := l.(done := l.done + [r], turn := next, serving := false);
    if next == null then l' else l'.(asleep := l.asleep - {next})
  }

  lemma JoinedArrives(nodes: seq<Node>, dir: Direction, l: Ledger, req: Node, at: nat)
    requires Agrees(nodes, l) && req !in nodes && at <= |nodes|
    requires forall j | 0 <= j < at :: nodes[j].key <= req.key
    requires at < |nodes| ==> nodes[at].key > req.key
    ensures var all, l' := nodes[..at] + [req] + nodes[at..], Joined(l, req, nodes == []);
            && Agrees(all, l')
            && StateOf(all, dir, l') == Arrived(StateOf(nodes, dir, l), req.key)
            && req in all && (req in l'.asleep <==> nodes != [])
  {
    hide OneEach, OneOwner, Requests, Numbers, InsertPlace;
    AsleepListed(nodes, l.asleep, l.turn);
    PlacesAgree(nodes, l.number, req.key, at);
    OneEachInserted(nodes, l.number, l.arrivals, req, at);
    RequestsInserted(nodes, l.number, l.arrivals, req, at);
    NumbersWith(l.asleep, l.number, req, l.arrivals);
    OwnerJoined(nodes, l.asleep, l.turn, at, req);
    assert (nodes[..at] + [req] + nodes[at..])[at] == req;
  }

  lemma PassedCompletes(nodes: seq<Node>, dir: Direction, l: Ledger, a: nat, next: Node?)
    requires Agrees(nodes, l) && Distinct(nodes) && a < |nodes| && l.turn == nodes[a]
    requires match NextPlace(|nodes|, a, dir)
             case None => next == null
             case Some(k) => next == nodes[k]
    ensures var rest := nodes[..a] + nodes[a + 1..];
            var l' := Passed(l, Request(l.number[nodes[a]], nodes[a].key), next);
            && Agrees(rest, l')
            && StateOf(rest, Turned(|nodes|, a, dir), l') == Completed(StateOf(nodes, dir, l), a)
            && (next != null ==> next in l.asleep)
  {
    hide OneEach, OneOwner, Requests, Numbers, Turned;
    AsleepListed(nodes, l.asleep, l.turn);
    RequestsRemoved(nodes, l.number, l.arrivals, a);
    RequestAt(nodes, l.number, a);
    if next != null {
      var k := NextPlace(|nodes|, a, dir).value;
      RequestAt(nodes, l.number, k);
      NumbersWithout(l.asleep, nodes, l.number, l.arrivals, next);
    }
    OwnerPassed(nodes, l.asleep, a, next);
  }

  class Device {
    const list: List
    var direct: Direction
    ghost var ledger: Ledger

    ghost predicate Valid()
      reads this, list, list.Chain()
    {
      list.Valid() && Agrees(list.nodes, ledger)
    }

    /** The device as a state of the elevator. */
    ghost function View(): State
      requires Valid()
      reads this, list, list.Chain()
    {
      StateOf(list.nodes, direct, ledger)
    }

    constructor ()
      ensures Valid() && View() == INITIAL && direct == Up && fresh(list) && fresh(list.Chain())
    {
      list := new List();
      direct := Up;
      ledger := Ledger({}, null, false, map[], 0, []);
    }

    /** The request to serve after req, which is at place a; the direction turns round at either end. */
    method NextRequest(req: Node, ghost a: nat) returns (next: Node?)
      requires list.Valid() && a < |list.nodes| && req == list.nodes[a]
      modifies this`direct
      ensures direct == Turned(|list.nodes|, a, old(direct))
      ensures match NextPlace(|list.nodes|, a, old(direct))
              case None => next == null
              case Some(k) => next == list.nodes[k]
    {
      ghost var c := list.Chain();
      assert c[a + 1].next == c[a + 2] && c[a + 1].prev == c[a];
      if direct == Up && req.next == list.tail {
        direct := Down;
      } else if direct == Down && req.prev == list.head {
        direct := Up;
      }
      next := if direct == Up then req.next else req.prev;
      if next == list.head || next == list.tail {
        next := null;
      }
    }

    /** The first half of a request, up to where its task is put to sleep if others came before it. */
    method Submit(req: Node) returns (blocks: bool)
      requires Valid() && req !in list.Chain() && req.prev == null && req.next == null
      modifies this`ledger, list`nodes, list.Chain(), req
      ensures Valid() && View() == Arrived(old(View()), req.key) && req in list.nodes
      ensures blocks == (old(list.nodes) != []) == (req in ledger.asleep)
    {
      hide Agrees, Linked, Distinct, SortedByKey, Arrived, StateOf;
      var empty := list.Empty();
      blocks := !empty;
      ghost var nodes := list.nodes;
      ghost var at: nat := list.InsertSort(req);
      JoinedArrives(nodes, direct, ledger, req, at);
      ledger := Joined(ledger, req, empty);
    }

    /** The second half, once the transfer is done: the next request is chosen, this one unlinked, and the next task woken.
        A task that is woken was asleep, and nobody is woken only if nobody else was waiting. */
    method Finish(req: Node, ghost a: nat) returns (next: Node?)
      requires Valid() && a < |list.nodes| && req == list.nodes[a] && ledger.turn == req
      modifies this, list`nodes, list.Chain()
      ensures Valid() && View() == Completed(old(View()), a)
      ensures next == ledger.turn && (next != null ==> next in old(ledger.asleep))
      ensures next == null <==> old(|list.nodes|) == 1
    {
      hide Linked, Distinct, SortedByKey, Completed, StateOf, Turned, OneEach, OneOwner, Requests;
      ghost var nodes, dir := list.nodes, direct;
      ListDistinct(list);
      next := NextRequest(req, a);
      list.RemoveNode(req, a);
      PassedCompletes(nodes, dir, ledger, a, next);
      ledger := Passed(ledger, Request(ledger.number[req], req.key), next);
    }
  }
}
