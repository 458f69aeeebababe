/** The intrusive forward list: nodes carry their own links, and each knows the slot that points to it. */
module ForwardLists {

  /** The memory a back-link points to: the list's `first`, or another node's `next`. */
  datatype Slot = NoSlot | FirstOf(list: FwdList) | NextOf(node: Node)

  class Node {
    var next: Node?
    var prevs_next: Slot

    constructor ()
      ensures !Linked()
    {
      next, prevs_next := null, NoSlot;
    }

    predicate Linked()
      reads this
    {
      next != null || prevs_next != NoSlot
    }
  }

  ghost predicate Distinct(nodes: seq<Node>) {
    forall j, k :: 0 <= j < k < |nodes| ==> nodes[j] != nodes[k]
  }

  /** The node after position `k`. */
  function NodeAfter(nodes: seq<Node>, k: nat): Node? {
    if k + 1 < |nodes| then nodes[k + 1] else null
  }

  /** The slot that must point to the node at position `k`. */
  function SlotBefore(list: FwdList, nodes: seq<Node>, k: nat): Slot
    requires k <= |nodes|
  {
    if k == 0 then FirstOf(list) else NextOf(nodes[k - 1])
  }

  ghost function Without(nodes: seq<Node>, k: nat): seq<Node>
    requires k < |nodes|
  {
    nodes[..k] + nodes[k + 1..]
  }

  lemma DistinctWithout(nodes: seq<Node>, k: nat)
    requires Distinct(nodes) && k < |nodes|
    ensures Distinct(Without(nodes, k)) && nodes[k] !in Without(nodes, k)
  {
  }

  lemma DistinctPrepended(node: Node, nodes: seq<Node>)
    requires Distinct(nodes) && node !in nodes
    ensures Distinct([node] + nodes)
  {
  }

  /** What each remaining node points to and is pointed to from, once the node at `k` is left out. */
  lemma NeighboursWithout(list: FwdList, nodes: seq<Node>, k: nat, j: nat)
    requires k < |nodes| && j < |nodes| - 1
    ensures var at := if j < k then j else j + 1;
      && Without(nodes, k)[j] == nodes[at]
      && NodeAfter(Without(nodes, k), j) == NodeAfter(nodes, if at + 1 == k then k else at)
      && SlotBefore(list, Without(nodes, k), j) == SlotBefore(list, nodes, if at == k + 1 then k else at)
  {
  }

  class FwdList {
    var count: nat
    var first: Node?

    /** The linked nodes, in order. */
    ghost var nodes: seq<Node>

    ghost predicate Valid()
      reads this, nodes
    {
      && count == |nodes|
      && Distinct(nodes)
      && first == (if nodes == [] then null else nodes[0])
      && (forall k :: 0 <= k < |nodes| ==> nodes[k].next == NodeAfter(nodes, k))
      && (forall k :: 0 <= k < |nodes| ==> nodes[k].prevs_next == SlotBefore(this, nodes, k))
    }

    constructor ()
      ensures Valid() && nodes == []
    {
      count, first, nodes := 0, null, [];
    }

    lemma HeadFacts()
      requires Valid()
      ensures forall k :: 1 <= k < |nodes| ==> nodes[k] != nodes[0]
    {
    }

    /** Prepends a node; of the others only the old first one is written. */
    method Link(pNode: Node)
      requires Valid() && pNode !in nodes
      modifies this, pNode, if nodes == [] then {} else {nodes[0]}
      ensures Valid() && nodes == [pNode] + old(nodes)
    {
      HeadFacts();
      hide Distinct, NodeAfter, SlotBefore;
      pNode.next := first;
      if first != null {
        first.prevs_next := NextOf(pNode);
        first := pNode;
      }
      pNode.prevs_next := FirstOf(this);
      first := pNode;
      count := count + 1;
      ghost var was := nodes;
      nodes := [pNode] + was;
      Prepended(pNode, was);
    }

    lemma Prepended(pNode: Node, was: seq<Node>)
      requires nodes == [pNode] + was && Distinct(was) && pNode !in was
      requires count == |was| + 1 && first == pNode
      requires pNode.next == (if was == [] then null else was[0]) && pNode.prevs_next == FirstOf(this)
      requires forall k :: 0 <= k < |was| ==> was[k].next == NodeAfter(was, k)
      requires was != [] ==> was[0].prevs_next == NextOf(pNode)
      requires forall k :: 1 <= k < |was| ==> was[k].prevs_next == SlotBefore(this, was, k)
      ensures Valid()
    {
      DistinctPrepended(pNode, was);
      hide Distinct;
      forall k | 0 <= k < |nodes|
        ensures nodes[k].next == NodeAfter(nodes, k) && nodes[k].prevs_next == SlotBefore(this, nodes, k)
      {
        assert k > 0 ==> nodes[k] == was[k - 1];
        assert k > 1 ==> nodes[k - 1] == was[k - 2];
      }
    }

    /** Removes a node through its back-link, without a search; `k` is where it was. */
    method Unlink(pNode: Node) returns (ghost k: nat)
      requires Valid() && pNode in nodes
      modifies this, nodes
      ensures Valid() && !pNode.Linked()
      ensures k < |old(nodes)| && old(nodes)[k] == pNode && nodes == Without(old(nodes), k)
      ensures forall j :: 0 <= j < |old(nodes)| && j != k && j + 1 != k ==> old(nodes)[j].next == old(nodes[j].next)
      ensures forall j :: 0 <= j < |old(nodes)| && j != k && j != k + 1 ==>
        old(nodes)[j].prevs_next == old(nodes[j].prevs_next)
    {
      hide Distinct, Without, NodeAfter, SlotBefore;
      k :| 0 <= k < |nodes| && nodes[k] == pNode;
      ghost var was := nodes;
      DistinctWithout(was, k);
      Rewire(pNode, k);
      count := count - 1;
      nodes := Without(was, k);
      Reassemble(was, k);
    }

    /** Closing the gap leaves a list. */
    lemma Reassemble(was: seq<Node>, k: nat)
      requires k < |was| && Distinct(was) && nodes == Without(was, k) && count == |was| - 1
      requires first == if k == 0 then NodeAfter(was, 0) else was[0]
      requires k > 0 ==> was[k - 1].next == NodeAfter(was, k)
      requires k + 1 < |was| ==> was[k + 1].prevs_next == SlotBefore(this, was, k)
      requires forall j :: 0 <= j < |was| && j != k && j + 1 != k ==> was[j].next == NodeAfter(was, j)
      requires forall j :: 0 <= j < |was| && j != k && j != k + 1 ==> was[j].prevs_next == SlotBefore(this, was, j)
      ensures Valid()
    {
      DistinctWithout(was, k);
      hide Distinct;
      assert |nodes| == |was| - 1;
      forall j | 0 <= j < |nodes|
        ensures nodes[j].next == NodeAfter(nodes, j) && nodes[j].prevs_next == SlotBefore(this, nodes, j)
      {
        NeighboursWithout(this, was, k, j);
      }
    }

    /** The pointer writes of `Unlink`: the slot before and the node after close the gap. */
    method Rewire(pNode: Node, ghost k: nat)
      requires Distinct(nodes) && k < |nodes| && nodes[k] == pNode
      requires pNode.prevs_next == SlotBefore(this, nodes, k) && pNode.next == NodeAfter(nodes, k)
      modifies this`first, nodes
      ensures first == if k == 0 then NodeAfter(nodes, 0) else old(first)
      ensures pNode.next == null && pNode.prevs_next == NoSlot
      ensures k > 0 ==> nodes[k - 1].next == NodeAfter(nodes, k)
      ensures k + 1 < |nodes| ==> nodes[k + 1].prevs_next == SlotBefore(this, nodes, k)
      ensures forall j :: 0 <= j < |nodes| && j != k && j + 1 != k ==> nodes[j].next == old(nodes[j].next)
      ensures forall j :: 0 <= j < |nodes| && j != k && j != k + 1 ==> nodes[j].prevs_next == old(nodes[j].prevs_next)
    {
      match pNode.prevs_next {
        case FirstOf(list) => list.first := pNode.next;
        case NextOf(node) => node.next := pNode.next;
      }
      if pNode.next != null {
        pNode.next.prevs_next := pNode.prevs_next;
      }
      pNode.next, pNode.prevs_next := null, NoSlot;
    }

    /** Walks the list; it ends, for no node comes twice. */
    method Has(pNode: Node) returns (found: bool)
      requires Valid()
      ensures found <==> pNode in nodes
    {
      var curr := first;
      ghost var k := 0;
      while curr != null
        invariant 0 <= k <= |nodes| && curr == (if k < |nodes| then nodes[k] else null)
        invariant pNode !in nodes[..k]
        decreases |nodes| - k
      {
        if curr == pNode {
          return true;
        }
        curr := curr.next;
        k := k + 1;
      }
      assert nodes[..k] == nodes;
      return false;
    }

    /** The answer is right; the assertion made before it fails exactly for lists that are not empty. */
    method Empty() returns (asserted: bool, ok: bool)
      requires Valid()
      ensures ok <==> nodes == []
      ensures asserted <==> nodes == []
    {
      asserted := count == 0;
      ok := first == null;
    }
  }

  /** Two lists never share a node: a node's back-links lead to one `first` only. */
  lemma {:induction false} BackLinksLead(list: FwdList, other: FwdList, j: nat, k: nat)
    requires list.Valid() && other.Valid() && j < |list.nodes| && k < |other.nodes|
    requires list.nodes[j] == other.nodes[k]
    ensures list == other
  {
    assert list.nodes[j].prevs_next == SlotBefore(list, list.nodes, j);
    assert other.nodes[k].prevs_next == SlotBefore(other, other.nodes, k);
    if j > 0 && k > 0 {
      BackLinksLead(list, other, j - 1, k - 1);
    }
  }

  /** So linking and unlinking in one list leaves every other list alone. */
  lemma ListsDisjoint(list: FwdList, other: FwdList)
    requires list.Valid() && other.Valid() && list != other
    ensures forall node :: node in list.nodes ==> node !in other.nodes
  {
    forall node | node in list.nodes ensures node !in other.nodes {
      if node in other.nodes {
        var j :| 0 <= j < |list.nodes| && list.nodes[j] == node;
        var k :| 0 <= k < |other.nodes| && other.nodes[k] == node;
        BackLinksLead(list, other, j, k);
      }
    }
  }
}
