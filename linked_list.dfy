/** A singly linked list whose only entry point is `head`: nodes are added at
    the front or, by walking the chain to its last node, at the back; the
    front node can be removed; and the chain can be traversed head to end.
 */
module LinkedLists {

  /** A storage cell: a value and a link to the next cell (null at the end). */
  class Node<T> {
    var value: T
    var nextNode: Node?<T>

    /** The successor defaults to null, as in the Ruby class's `initialize` (default nil). */
    constructor (value: T, nextNode: Node?<T> := null)
      ensures this.value == value && this.nextNode == nextNode
    {
      this.value := value;
      this.nextNode := nextNode;
    }
  }

  /** The node reached from `n` by following `nextNode` `k` times, stopping at null. */
  ghost function Follow<T>(n: Node?<T>, k: nat): (r: Node?<T>)
    reads *
    decreases k
  {
    if n == null || k == 0 then n else Follow(n.nextNode, k - 1)
  }

  class LinkedList<T> {
    var head: Node?<T>

    // public view: the chain of nodes from head, and the values they hold
    ghost var Nodes: seq<Node<T>>
    ghost var Contents: seq<T>

    /** The i-th node of the chain, or null past its end. */
    ghost function At(i: nat): (r: Node?<T>)
      reads this
    {
      if i < |Nodes| then Nodes[i] else null
    }

    /** The list invariant: head is the first node, each node links to the next
        one and the last one to null, each node holds the matching value, and no
        node occurs twice (so the chain is finite and acyclic). */
    ghost predicate Valid()
      reads this, Nodes
      ensures Valid() ==> (head == null <==> Contents == [])
    {
      && |Nodes| == |Contents|
      && head == At(0)
      && (forall i :: 0 <= i < |Nodes| ==> Nodes[i].value == Contents[i] && Nodes[i].nextNode == At(i + 1))
      && (forall i, j :: 0 <= i < j < |Nodes| ==> Nodes[i] != Nodes[j])
    }

    /** A new list has no head and is empty. */
    constructor ()
      ensures Valid()
      ensures head == null && Nodes == [] && Contents == []
    {
      head := null;
      Nodes := [];
      Contents := [];
    }

    /** Links a new node in front of the old head and makes it the head.
        Only `this` is modified, so no existing node's successor changes. */
    method AddToStart(value: T) returns (node: Node<T>)
      requires Valid()
      modifies this
      ensures Valid() && fresh(node)
      ensures head == node && node.value == value && node.nextNode == old(head)
      ensures Nodes == [node] + old(Nodes)
      ensures Contents == [value] + old(Contents)
    {
      node := new Node(value, head);
      head := node;
      Nodes := [node] + Nodes;
      Contents := [value] + Contents;
    }

    /** Unlinks the head node and returns it; on an empty list returns null
        and changes nothing. The removed node keeps its old successor link. */
    method RemoveFromStart() returns (removed: Node?<T>)
      requires Valid()
      modifies this
      ensures Valid()
      ensures old(Contents) == [] ==> removed == null && unchanged(this)
      ensures old(Contents) != [] ==>
                && removed == old(head) && removed != null
                && removed.value == old(Contents)[0]
                && head == old(head.nextNode)
                && Nodes == old(Nodes)[1..]
                && Contents == old(Contents)[1..]
    {
      removed := head;
      if removed != null {
        head := removed.nextNode;
        Nodes := Nodes[1..];
        Contents := Contents[1..];
      }
    }

    /** Creates a node without successor, walks from head to the node whose
        successor is null and links the new node there; on an empty list the
        new node becomes the head. Besides the list itself, only the old last
        node is modified, and only its successor link. */
    method AddToEnd(value: T) returns (node: Node<T>)
      requires Valid()
      modifies this, if Nodes == [] then {} else {Nodes[|Nodes| - 1]}
      ensures Valid() && fresh(node)
      ensures node.value == value && node.nextNode == null
      ensures Nodes == old(Nodes) + [node]
      ensures Contents == old(Contents) + [value]
      ensures old(head) == null ==> head == node
      ensures old(head) != null ==> head == old(head) && old(Nodes)[|old(Nodes)| - 1].nextNode == node
      ensures old(head) != null ==> old(Nodes)[|old(Nodes)| - 1].value == old(Nodes[|Nodes| - 1].value)
    {
      node := new Node(value);
      if head == null {
        head := node;
      } else {
        var current := head;
        ghost var i := 0;
        while current.nextNode != null
          invariant 0 <= i < |Nodes| && current == Nodes[i]
          decreases |Nodes| - i
        {
          current := current.nextNode;
          i := i + 1;
        }
        // the walk stopped at the only node without successor: the last one
        assert i == |Nodes| - 1;
        current.nextNode := node;
      }
      Nodes := Nodes + [node];
      Contents := Contents + [value];
    }

    /** Visits every node from head until the current node is null and
        collects the values in visiting order; yields exactly the contents. */
    method Traverse() returns (values: seq<T>)
      requires Valid()
      ensures values == Contents
    {
      values := [];
      var current := head;
      ghost var i := 0;
      while current != null
        invariant 0 <= i <= |Nodes| && current == At(i)
        invariant values == Contents[..i]
        decreases |Nodes| - i
      {
        values := values + [current.value];
        current := current.nextNode;
        i := i + 1;
      }
    }

    /** Following k links from the i-th node reaches the (i + k)-th node,
        or null once the end of the chain is passed. */
    lemma {:induction false} FollowFrom(i: nat, k: nat)
      requires Valid() && i <= |Nodes|
      ensures Follow(At(i), k) == At(i + k)
      decreases k
    {
      if k > 0 && i < |Nodes| {
        FollowFrom(i + 1, k - 1);
      }
    }

    /** The chain from head is finite: its k-th node holds the k-th value for
        every k below the length, and exactly length links lead to null. */
    lemma ChainFromHead()
      requires Valid()
      ensures Follow(head, |Contents|) == null
      ensures forall k :: 0 <= k < |Contents| ==> Follow(head, k) != null && Follow(head, k).value == Contents[k]
    {
      FollowFrom(0, |Nodes|);
      forall k | 0 <= k < |Contents|
        ensures Follow(head, k) != null && Follow(head, k).value == Contents[k]
      {
        FollowFrom(0, k);
      }
    }

    /** No node of the chain is reached again by following links from it. */
    lemma Acyclic(n: Node<T>, k: nat)
      requires Valid() && n in Nodes && 0 < k
      ensures Follow(n, k) != n
    {
      var i :| 0 <= i < |Nodes| && Nodes[i] == n;
      FollowFrom(i, k);
    }

    /** The node whose successor is null, where the walk of AddToEnd stops, is
        the last node of the chain and no other. */
    lemma NullSuccessorIsLast(n: Node<T>)
      requires Valid() && n in Nodes
      ensures n.nextNode == null <==> n == Nodes[|Nodes| - 1]
    {
    }
  }
}
