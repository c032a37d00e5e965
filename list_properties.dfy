/** What a caller of LinkedList can prove from its contracts alone: how the
    front and back operations combine, and how an empty list behaves. */
module LinkedListProperties {
  import opened LinkedLists

  /** On any list, adding a value at the front and then removing from the front
      hands back a node with that value and restores the original chain. */
  method AddThenRemoveAtStart<T>(list: LinkedList<T>, v: T) returns (removed: Node?<T>)
    requires list.Valid()
    modifies list
    ensures list.Valid()
    ensures removed != null && removed.value == v
    ensures list.head == old(list.head)
    ensures list.Nodes == old(list.Nodes) && list.Contents == old(list.Contents)
  {
    var _ := list.AddToStart(v);
    removed := list.RemoveFromStart();
  }

  /** On any empty list, removing from the front yields null and leaves the
      list as it was, however often it is repeated. */
  method RemoveFromEmpty<T>(list: LinkedList<T>, times: nat) returns (all: seq<Node?<T>>)
    requires list.Valid() && list.Contents == []
    modifies list
    ensures list.Valid() && list.head == null && list.Contents == []
    ensures |all| == times && forall k :: 0 <= k < |all| ==> all[k] == null
  {
    all := [];
    while |all| < times
      invariant list.Valid() && list.head == null && list.Contents == []
      invariant |all| <= times && forall k :: 0 <= k < |all| ==> all[k] == null
    {
      var r := list.RemoveFromStart();
      all := all + [r];
    }
  }

  /** Front insertion and removal follow a stack discipline: the value added
      last comes out first, and the list is empty after both are taken. */
  method FrontIsLastInFirstOut<T>(v1: T, v2: T) returns (first: T, second: T, rest: seq<T>)
    ensures first == v2 && second == v1 && rest == []
  {
    var list := new LinkedList<T>();
    var _ := list.AddToStart(v1);
    var _ := list.AddToStart(v2);
    var r1 := list.RemoveFromStart();
    var r2 := list.RemoveFromStart();
    first, second := r1.value, r2.value;
    rest := list.Traverse();
  }

  /** Values appended at the back are traversed in the order they were added. */
  method BackKeepsOrder<T>(v1: T, v2: T, v3: T) returns (values: seq<T>)
    ensures values == [v1, v2, v3]
  {
    var list := new LinkedList<T>();
    var _ := list.AddToEnd(v1);
    var _ := list.AddToEnd(v2);
    var _ := list.AddToEnd(v3);
    values := list.Traverse();
  }

  /** Mixing both ends: front additions go before, back additions after. */
  method MixedEnds<T>(v1: T, v2: T, v3: T) returns (afterEnd: seq<T>, afterStart: seq<T>)
    ensures afterEnd == [v1, v2]
    ensures afterStart == [v3, v1, v2]
  {
    var list := new LinkedList<T>();
    var _ := list.AddToStart(v1);
    var _ := list.AddToEnd(v2);
    afterEnd := list.Traverse();
    var _ := list.AddToStart(v3);
    afterStart := list.Traverse();
  }

  /** A fresh list underflows: removal yields null twice and the list stays empty. */
  method EmptyUnderflow<T>() returns (first: Node?<T>, second: Node?<T>, values: seq<T>)
    ensures first == null && second == null && values == []
  {
    var list := new LinkedList<T>();
    first := list.RemoveFromStart();
    second := list.RemoveFromStart();
    values := list.Traverse();
  }

  /** One value added at either end and removed again leaves an empty list. */
  method SingleElementCollapse<T>(v: T, atEnd: bool) returns (removed: T, values: seq<T>, again: Node?<T>)
    ensures removed == v && values == [] && again == null
  {
    var list := new LinkedList<T>();
    if atEnd {
      var _ := list.AddToEnd(v);
    } else {
      var _ := list.AddToStart(v);
    }
    var r := list.RemoveFromStart();
    removed := r.value;
    values := list.Traverse();
    again := list.RemoveFromStart();
  }
}
