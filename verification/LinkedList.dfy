/** The kernel's doubly linked list: nodes rewired in place between two sentinels. */
module LinkedList {

  class Node {
    var prev: Node?
    var next: Node?
    const key: int

    constructor (key: int)
      ensures this.key == key && prev == null && next == null
    {
      this.key := key;
      prev, next := null, null;
    }
  }

  ghost predicate Distinct(c: seq<Node>) {
    forall i, j | 0 <= i < j < |c| :: c[i] != c[j]
  }

  /** Neighbours point at each other. */
  ghost predicate Linked(c: seq<Node>)
    reads c
  {
    && (forall i | 0 <= i < |c| - 1 :: c[i].next == c[i + 1])
    && (forall i | 0 < i < |c| :: c[i].prev == c[i - 1])
  }

  /** Put node before anchor, which is the i-th node of chain c. */
  method InsertBefore(anchor: Node, node: Node, ghost c: seq<Node>, ghost i: nat)
    requires Distinct(c) && Linked(c) && 0 < i < |c| && anchor == c[i] && node !in c
    modifies anchor, node, c[i - 1]
    ensures Distinct(c[..i] + [node] + c[i..]) && Linked(c[..i] + [node] + c[i..])
  {
    assert anchor.prev == c[i - 1];
    node.prev := anchor.prev;
    node.next := anchor;
    anchor.prev.next := node;
    anchor.prev := node;
  }

  /** Put node after anchor, which is the node before the i-th of chain c. */
  method InsertAfter(anchor: Node, node: Node, ghost c: seq<Node>, ghost i: nat)
    requires Distinct(c) && Linked(c) && 0 < i < |c| && anchor == c[i - 1] && node !in c
    modifies anchor, node, c[i]
    ensures Distinct(c[..i] + [node] + c[i..]) && Linked(c[..i] + [node] + c[i..])
  {
    assert anchor.next == c[i];
    node.prev := anchor;
    node.next := anchor.next;
    anchor.next.prev := node;
    anchor.next := node;
  }

  /** Unlink the i-th node of chain c. */
  method Remove(node: Node, ghost c: seq<Node>, ghost i: nat)
    requires Distinct(c) && Linked(c) && 0 < i < |c| - 1 && node == c[i]
    modifies node, c[i - 1], c[i + 1]
    ensures Distinct(c[..i] + c[i + 1..]) && Linked(c[..i] + c[i + 1..])
    ensures node.prev == null && node.next == null
  {
    assert node.prev == c[i - 1] && node.next == c[i + 1];
    node.prev.next := node.next;
    node.next.prev := node.prev;
    node.prev := null;
    node.next := null;
  }

  // ---------- proofs about chains ----------

  lemma Cut(h: Node, nodes: seq<Node>, t: Node, i: nat)
    requires i < |nodes|
    ensures var c := [h] + nodes + [t];
            [h] + (nodes[..i] + nodes[i + 1..]) + [t] == c[..i + 1] + c[i + 2..]
  {}

  lemma Spliced(h: Node, nodes: seq<Node>, t: Node, k: nat, node: Node)
    requires k <= |nodes|
    ensures var c := [h] + nodes + [t];
            [h] + (nodes[..k] + [node] + nodes[k..]) + [t] == c[..k + 1] + [node] + c[k + 1..]
  {}

  // ---------- lists ----------

  ghost predicate SortedByKey(nodes: seq<Node>) {
    forall i, j | 0 <= i < j < |nodes| :: nodes[i].key <= nodes[j].key
  }

  class List {
    const head: Node
    const tail: Node
    /** The nodes between the sentinels, first to last. */
    ghost var nodes: seq<Node>

    ghost function Chain(): (c: seq<Node>)
      reads this
      ensures |c| == |nodes| + 2
      ensures c[0] == head && c[|c| - 1] == tail
      ensures forall i | 0 <= i < |nodes| :: c[i + 1] == nodes[i]
    {
      [head] + nodes + [tail]
    }

    ghost predicate Valid()
      reads this, Chain()
    {
      Distinct(Chain()) && Linked(Chain())
    }

    constructor ()
      ensures Valid() && nodes == [] && fresh(Chain())
    {
      var h := new Node(0);
      var t := new Node(0);
      head, tail := h, t;
      nodes := [];
      new;
      head.next := tail;
      tail.prev := head;
      tail.next := head;
    }

    method Empty() returns (r: bool)
      requires Valid()
      ensures r <==> nodes == []
    {
      assert Chain()[0].next == Chain()[1];
      r := head.next == tail;
    }

    method Search(node: Node) returns (r: bool)
      requires Valid() && node != head && node != tail
      ensures r <==> node in nodes
    {
      var cur := head.next;
      ghost var i := 0;
      while cur != tail
        invariant 0 <= i <= |nodes| && cur == Chain()[i + 1]
        invariant forall j | 0 <= j < i :: nodes[j] != node
        decreases |nodes| - i
      {
        assert Chain()[i + 1].next == Chain()[i + 2];
        assert i < |nodes| && cur == nodes[i];
        if cur == node {
          return true;
        }
        cur := cur.next;
        i := i + 1;
      }
      assert i == |nodes|;
      return false;
    }

    method PushFront(node: Node)
      requires Valid() && node !in Chain()
      modifies this`nodes, Chain(), node
      ensures Valid() && nodes == [node] + old(nodes)
    {
      ghost var c := Chain();
      InsertAfter(head, node, c, 1);
      nodes := [node] + nodes;
      assert Chain() == c[..1] + [node] + c[1..];
    }

    /** The node behind the given one, which is at place i of the chain. */
    method After(node: Node, ghost i: nat) returns (next: Node)
      requires Valid() && i <= |nodes| && node == Chain()[i]
      ensures next == Chain()[i + 1] && (next == tail <==> i == |nodes|)
    {
      assert Chain()[i].next == Chain()[i + 1];
      assert i < |nodes| ==> Chain()[i + 1] != Chain()[|nodes| + 1];
      next := node.next;
    }

    method PopFront() returns (node: Node)
      requires Valid() && nodes != []
      modifies this`nodes, Chain()
      ensures Valid() && nodes == old(nodes[1..]) && node == old(nodes[0])
      ensures node.prev == null && node.next == null
    {
      hide Linked, Distinct;
      node := After(head, 0);
      RemoveNode(node, 0);
    }

    method PopBack() returns (node: Node)
      requires Valid() && nodes != []
      modifies this`nodes, Chain()
      ensures Valid() && nodes == old(nodes[..|nodes| - 1]) && node == old(nodes[|nodes| - 1])
      ensures node.prev == null && node.next == null
    {
      ghost var c := Chain();
      assert c[|nodes| + 1].prev == c[|nodes|] == nodes[|nodes| - 1];
      node := tail.prev;
      Remove(node, c, |nodes|);
      nodes := nodes[..|nodes| - 1];
      assert Chain() == c[..|nodes| + 1] + c[|nodes| + 2..];
    }

    /** Unlink the i-th node. */
    method RemoveNode(node: Node, ghost i: nat)
      requires Valid() && i < |nodes| && node == nodes[i]
      modifies this`nodes, Chain()
      ensures Valid() && nodes == old(nodes[..i] + nodes[i + 1..])
      ensures node.prev == null && node.next == null
    {
      hide Linked, Distinct;
      ghost var c, before := Chain(), nodes;
      assert c[i + 1] == node;
      Remove(node, c, i + 1);
      Cut(head, before, tail, i);
      nodes := nodes[..i] + nodes[i + 1..];
    }

    /** Insert before the first node with a greater key. */
    method InsertSort(node: Node) returns (ghost k: nat)
      requires Valid() && node !in Chain() && node.prev == null && node.next == null
      modifies this`nodes, Chain(), node
      ensures Valid() && k <= old(|nodes|) && nodes == old(nodes)[..k] + [node] + old(nodes)[k..]
      ensures forall j | 0 <= j < k :: old(nodes)[j].key <= node.key
      ensures k < old(|nodes|) ==> old(nodes)[k].key > node.key
      ensures SortedByKey(old(nodes)) ==> SortedByKey(nodes)
    {
      var anchor: Node;
      anchor, k := FindGreater(node.key);
      SortedInsert(nodes, k, node);
      LinkAt(anchor, node, k);
    }

    /** Link node before anchor, which is at place k (the tail is at the last place). */
    method LinkAt(anchor: Node, node: Node, ghost k: nat)
      requires Valid() && node !in Chain() && k <= |nodes| && anchor == Chain()[k + 1]
      modifies this`nodes, Chain(), node
      ensures Valid() && nodes == old(nodes)[..k] + [node] + old(nodes)[k..]
    {
      hide Linked, Distinct;
      ghost var c, before := Chain(), nodes;
      InsertBefore(anchor, node, c, k + 1);
      Spliced(head, before, tail, k, node);
      nodes := nodes[..k] + [node] + nodes[k..];
    }

    /** The first node with a key greater than the given one, or the tail. */
    method FindGreater(key: int) returns (anchor: Node, ghost k: nat)
      requires Valid()
      ensures k <= |nodes| && anchor == Chain()[k + 1]
      ensures forall j | 0 <= j < k :: nodes[j].key <= key
      ensures k < |nodes| ==> nodes[k].key > key
    {
      anchor, k := tail, |nodes|;
      var ptr := head.next;
      ghost var i := 0;
      while ptr != tail
        invariant 0 <= i <= |nodes| && ptr == Chain()[i + 1]
        invariant forall j | 0 <= j < i :: nodes[j].key <= key
        decreases |nodes| - i
      {
        assert Chain()[i + 1].next == Chain()[i + 2];
        assert i < |nodes| && ptr == nodes[i];
        if ptr.key > key {
          return ptr, i;
        }
        ptr := ptr.next;
        i := i + 1;
      }
      assert i == |nodes|;
    }
  }

  /** Where the new node goes, the list stays sorted; nodes with the same key keep their order, the new one comes last. */
  lemma SortedInsert(nodes: seq<Node>, k: nat, node: Node)
    requires k <= |nodes|
    requires forall j | 0 <= j < k :: nodes[j].key <= node.key
    requires k < |nodes| ==> nodes[k].key > node.key
    ensures SortedByKey(nodes) ==> SortedByKey(nodes[..k] + [node] + nodes[k..])
  {
    var r := nodes[..k] + [node] + nodes[k..];
    if SortedByKey(nodes) {
      assert forall j | k <= j < |nodes| :: nodes[j].key > node.key;
      assert forall j | 0 <= j < |r| :: r[j] == if j < k then nodes[j] else if j == k then node else nodes[j - 1];
    }
  }
}
