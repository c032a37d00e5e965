# Singly linked list

A model of the linked list exercise in `08_linked_lists/linked_list.rb`: a
`Node` cell holding a `value` and a `next_node` link, and a `LinkedList`
container whose only field is `head`. The list supports adding a node at the
start, removing the node at the start, adding a node at the end by walking
from `head` to the node whose successor is nil, and a traversal ("print")
that visits every node from `head` until the current node is nil.

The Ruby file describes each method by step-by-step comments. The model
follows those steps literally:

- `LinkedLists.Node` is a class with the fields `value` and `nextNode`. Its
  constructor's successor defaults to `null`.
- `LinkedLists.LinkedList` is a class with the one real field `head`. It
  has no tail pointer. Two ghost fields give its meaning: `Nodes`, the chain
  of nodes from `head`, and `Contents`, the values they hold.
- `Valid()` is the list invariant. `head` is the first node of `Nodes`. Each
  node holds the matching value of `Contents` and links to the next node. The
  last node links to `null`. No node occurs twice, so the chain is finite and
  acyclic.
- `AddToStart`, `RemoveFromStart` and `AddToEnd` are methods that update
  `head` and node links in place. Their contracts state the new `Nodes` and
  `Contents` in terms of the old ones and say which objects may change.
- `print` is modelled as `Traverse`, a `while current != null` loop that
  returns the sequence of values visited instead of writing them out.

Two cases that the comments leave open are decided explicitly:

- `RemoveFromStart` on an empty list returns `null` (Ruby's nil) and leaves
  the list unchanged. The steps as written would dereference nil there.
- `AddToEnd` on an empty list makes the new node the `head`. The steps as
  written assume `current` is not nil.

The Ruby list keeps only `head` (line 26); there is no tail reference.
`add_to_end` walks the chain to its last node, which the file itself rates
O(n) (line 15). `remove_from_start` returns the removed node (line 38), not
only its value. The model does the same.

Following the Ruby convention, `add_to_start` and `add_to_end` end with an
assignment of the new node, so the model's methods return that node.

## Model

| member | source | states |
|---|---|---|
| `LinkedLists.Node.constructor` | 08_linked_lists/linked_list.rb:19-23 | a new node holds the given value and the given successor, which defaults to null |
| `LinkedLists.LinkedList.constructor` | 08_linked_lists/linked_list.rb:25-28 | a new list has a null head, an empty chain and empty contents, and satisfies the list invariant |
| `LinkedLists.LinkedList.Valid` | 08_linked_lists/linked_list.rb:25-49 | the list invariant; under it the head is null exactly when the contents are empty |
| `LinkedLists.LinkedList.AddToStart` | 08_linked_lists/linked_list.rb:30-33 | the new node links to the old head and becomes the head; contents become `[v] + old contents`; only the list object is modified, so no existing node's link changes; the invariant is preserved |
| `LinkedLists.LinkedList.RemoveFromStart` | 08_linked_lists/linked_list.rb:35-38 | on a non-empty list returns the old head node, which holds the first value; the head becomes its successor and the contents lose their first value; on an empty list returns null and nothing changes; the invariant is preserved |
| `LinkedLists.LinkedList.AddToEnd` | 08_linked_lists/linked_list.rb:41-45 | the walk from head stops at the last node and links the new node there; on an empty list the new node becomes the head; contents become `old contents + [v]`; only the list object and the old last node may change, and that node keeps its value; the invariant is preserved |
| `LinkedLists.LinkedList.Traverse` | 08_linked_lists/linked_list.rb:47-49 | the traversal from head until null terminates and yields exactly the contents, in head-to-end order |
| `LinkedLists.LinkedList.FollowFrom` | 08_linked_lists/linked_list.rb:44-49 | following k links from the i-th node reaches the (i+k)-th node, or null past the end |
| `LinkedLists.LinkedList.ChainFromHead` | 08_linked_lists/linked_list.rb:47-49 | the k-th node reached from head holds the k-th value, and exactly as many links as there are values lead from head to null |
| `LinkedLists.LinkedList.Acyclic` | 08_linked_lists/linked_list.rb:25-49 | no node of the chain is reached again by following one or more links from it |
| `LinkedLists.LinkedList.NullSuccessorIsLast` | 08_linked_lists/linked_list.rb:44 | a node of the chain has a null successor exactly when it is the last node |
| `LinkedListProperties.AddThenRemoveAtStart` | 08_linked_lists/linked_list.rb:30-38 | on any list, adding v at the start and then removing from the start returns a node holding v and restores head, chain and contents |
| `LinkedListProperties.RemoveFromEmpty` | 08_linked_lists/linked_list.rb:35-38 | on an empty list, removing from the start any number of times always returns null and the list stays empty |
| `LinkedListProperties.FrontIsLastInFirstOut` | 08_linked_lists/linked_list.rb:30-38 | after adding v1 then v2 at the start, the two removals return v2 then v1 and the list is empty |
| `LinkedListProperties.BackKeepsOrder` | 08_linked_lists/linked_list.rb:41-49 | adding v1, v2, v3 at the end traverses as `[v1, v2, v3]` |
| `LinkedListProperties.MixedEnds` | 08_linked_lists/linked_list.rb:30-49 | adding v1 at the start and v2 at the end traverses as `[v1, v2]`; then adding v3 at the start traverses as `[v3, v1, v2]` |
| `LinkedListProperties.EmptyUnderflow` | 08_linked_lists/linked_list.rb:28-38 | on a new list, removing twice returns null both times and the list still traverses as empty |
| `LinkedListProperties.SingleElementCollapse` | 08_linked_lists/linked_list.rb:30-45 | one value added at either end and removed again is returned, after which the list is empty and a further removal returns null |

## Left out

- Writing values to the console in `print`: the traversal returns the sequence of values instead.
- `require 'pry'` and `binding.pry` (lines 1-2): a debugging aid with no behaviour.
- The Big-O remarks (lines 12, 15, 17): running time is not modelled.
- The "browser history" remark (line 52): it is a comment with no behaviour.
- Direct writes through the Ruby `attr_accessor`s (`head=`, `value=`, `next_node=`) from outside the class: such writes can break the list invariant, so every operation requires `Valid()` and only the list's own methods update the fields.
- The web application in the rest of the repository (controllers, serializers, models, routes, seeds): it is framework glue with no list logic.
