# Singly linked list

A model of a textbook singly linked list of integers: a `LinkedList` object
holds a reference to its first `Node`, and each node holds a value and a
reference to its successor. The operations add at either end, search, count,
index from the front and from the end, find the maximum and the middle value,
delete the first node with a given value, reverse the chain in place by
relinking its nodes, and detect a cycle. A test helper closes the chain into
a cycle.

The model is imperative, as the code is. `LinkedLists.Node` and
`LinkedLists.LinkedList` are classes whose `next` and `head` fields the
methods update in place. Every traversal is a `while` or `for` loop with its
invariants. Each list carries two ghost fields:
- `Nodes` is the chain of node objects from the head;
- `Contents` is the values they hold.

`Valid()` says that `head` starts a chain of distinct nodes that holds
`Contents` in order and ends in null. Every operation except `create_cycle`
keeps it. `create_cycle` keeps only the weaker `Closed()`: following links
from the head never leaves `Nodes`. `Endless()` says that such a walk never
reaches the end, which is what "the list has a cycle" means.

Module `Seqs` holds the sequence-level specifications:
- `Reversed` is the order that `reverse` produces;
- `FirstIndex` is the position of the node that `delete` unlinks;
- `RemoveAt` is what remains after the unlink.

Module `Scenarios` holds client methods. They relate several operations and
replay small example runs whose outcomes follow from the contracts alone.

The code's edge-case behaviour that the model keeps:
- `find_nth_from_end` carries the comment "assume indexing starts at 0
  while counting to n" (`linked_list/linked_list.py:192`), which reads as
  `n = 0` meaning the last node. The code disagrees with its comment: it
  walks `length - n` nodes from the front. So `n = 0` walks off the end and
  returns None, and `n = 2` on 1, 2, 3 returns 2. The model follows the
  code: `FindNthFromEnd` and `Scenarios.OneTwoThreeFromEnd` state this
  behaviour.
- `find_middle_value` on an empty list looks up the value of a missing node
  and fails, so `FindMiddleValue` requires a non-empty list.
- `get_at_index` returns None when `length < index`, as its comment says.
  When `index == length` on a non-empty list, the walk ends on a missing
  node and line 77 fails, so `GetAtIndex` requires that this case does not
  occur.
- A negative index makes `get_at_index` return the string
  `"Error: this is a singly linked list..."`. It raises no error. The model
  returns the same string as `IndexResult.Error`.

## Model

| member | source | states |
|---|---|---|
| LinkedLists.Node.constructor | linked_list/linked_list.py:3-7 | a new node holds the given value and successor |
| LinkedLists.LinkedList.constructor | linked_list/linked_list.py:11-12 | a new list is valid and empty (head is null) |
| LinkedLists.LinkedList.GetFirst | linked_list/linked_list.py:18-21 | None exactly when the list is empty, otherwise the first value |
| LinkedLists.LinkedList.AddFirst | linked_list/linked_list.py:27-31 | the list stays valid, `value` is prepended to the contents, and a fresh node goes in front of the old nodes |
| LinkedLists.LinkedList.Search | linked_list/linked_list.py:37-44 | true exactly when `value` occurs in the contents |
| LinkedLists.LinkedList.Length | linked_list/linked_list.py:49-56 | the count equals the number of values in the list |
| LinkedLists.LinkedList.GetAtIndex | linked_list/linked_list.py:63-77 | error string for a negative index; None for an empty list or an index past the length; otherwise the value at that zero-based position |
| LinkedLists.LinkedList.GetLast | linked_list/linked_list.py:84-91 | None exactly when the list is empty, otherwise the last value |
| LinkedLists.LinkedList.NextIsNull | linked_list/linked_list.py:84-91 | in a valid list, a node's successor is null exactly when it is the last node, which is where the `while cur.next` walks stop |
| LinkedLists.LinkedList.AddLast | linked_list/linked_list.py:96-105 | the list stays valid, `value` is appended, the old nodes keep their order, and a fresh node is last |
| LinkedLists.LinkedList.FindMax | linked_list/linked_list.py:111-120 | None exactly when the list is empty; otherwise a value of the list that no value exceeds |
| LinkedLists.LinkedList.Delete | linked_list/linked_list.py:125-141 | the list stays valid; with no match nothing changes; otherwise exactly the node at the first occurrence of `value` is removed from nodes and contents; a removed head keeps its link to the new head, a removed later node has its link cleared, and no node's value changes |
| LinkedLists.LinkedList.UnlinkAfter | linked_list/linked_list.py:136-139 | relinking the predecessor past node `k` and clearing node `k`'s link leaves a valid list without position `k`, and no node's value changes |
| LinkedLists.UnlinkedChain | linked_list/linked_list.py:136-139 | distinct nodes linked in order, except that node `k - 1` skips node `k`, form a chain of the nodes and values without position `k` |
| Seqs.FirstIndex | linked_list/linked_list.py:125-141 | the position of the first occurrence of `v` (no earlier position holds `v`), or the length when `v` is absent |
| Seqs.RemoveAtAt | linked_list/linked_list.py:125-141 | after removing position `k`, earlier positions keep their element and later ones take their right neighbour's |
| Seqs.RemoveAtDistinct | linked_list/linked_list.py:125-141 | removing a node from a chain of distinct nodes leaves distinct nodes |
| Seqs.RemoveAtMultiset | linked_list/linked_list.py:125-141 | removing position `k` takes away one copy of that element and nothing else |
| Seqs.RemoveFirstOccurrence | linked_list/linked_list.py:122-141 | deleting the first occurrence of a present value removes exactly one copy of it |
| Seqs.StillPresentAfterRemoval | linked_list/linked_list.py:122-141 | after deleting the first occurrence, the value is still present exactly when it occurred at least twice |
| LinkedLists.LinkedList.Reverse | linked_list/linked_list.py:160-174 | the list stays valid, and its nodes and its values are those of before in reverse order (nodes relinked, not values copied) |
| Seqs.ReversedAt | linked_list/linked_list.py:160-174 | position `i` of the reversal holds position `length - 1 - i` of the original |
| Seqs.ReversedTwice | linked_list/linked_list.py:160-174 | reversing twice gives back the original order |
| Seqs.ReversedSameElements | linked_list/linked_list.py:160-174 | the reversal holds the same values, as many times each |
| Seqs.ReversedDistinct | linked_list/linked_list.py:160-174 | the reversal of distinct nodes is again distinct, so the reversed chain has no repeated node |
| LinkedLists.LinkedList.FindMiddleValue | linked_list/linked_list.py:180-188 | the value at position `length / 2` (floor), the second of the two middles on an even length |
| LinkedLists.LinkedList.FindNthFromEnd | linked_list/linked_list.py:195-209 | None on an empty list, for `n >= length` and for `n == 0`; otherwise the value at position `length - n` |
| LinkedLists.LinkedList.HasCycle | linked_list/linked_list.py:216-225 | on a valid list or any closed chain, true exactly when the walk from the head never ends, comparing nodes by identity; false on a valid list |
| LinkedLists.RepeatNeverEnds | linked_list/linked_list.py:216-225 | a walk that meets a node it has already visited never reaches the end, so returning true on a revisit is right |
| LinkedLists.LinkedList.ValidNotEndless | linked_list/linked_list.py:216-225 | a list built by the operations other than `create_cycle` has no cycle |
| LinkedLists.LinkedList.ValidWalk | linked_list/linked_list.py:216-225 | in a valid list, step `k` from the head is the `k`-th node, and step `length` reaches the end |
| LinkedLists.LinkedList.CreateCycle | linked_list/linked_list.py:230-239 | on an empty list nothing changes and the list stays valid; otherwise the last node links to the head, the other links and all values are kept, and the walk from the head never ends |
| LinkedLists.NoEndNeverEnds | linked_list/linked_list.py:230-239 | when every node has a successor among the nodes, no walk ever reaches the end |
| Scenarios.AddFirstThenGetFirst | linked_list/linked_list.py:18-31 | after `add_first(v)`, `get_first` answers `v` |
| Scenarios.AddLastThenGetLast | linked_list/linked_list.py:84-105 | after `add_last(v)`, `get_last` answers `v` and the earlier values keep their order |
| Scenarios.ReverseTwice | linked_list/linked_list.py:160-174 | reversing twice restores the same nodes in the same order |
| Scenarios.DeleteThenSearch | linked_list/linked_list.py:122-141 | after `delete(v)`, `search(v)` is true exactly when `v` occurred at least twice |
| Scenarios.CreateCycleThenHasCycle | linked_list/linked_list.py:211-239 | after `create_cycle`, `has_cycle` is true exactly when the list was not empty |
| Scenarios.OneTwoThree | linked_list/linked_list.py:96-105 | three `add_last` calls on a new list give the valid list 1, 2, 3 |

## Left out

- `visit` prints the values joined by commas. Printing is output only, so it is not modelled.
- Values are fixed to `int`. The code accepts any Python value, and `find_max` compares values with `>`, which needs an ordering on them.
- The time and space complexity stated in the code's comments is not modelled.
- LinkedLists.LinkedList.GetAtIndex: requires `index != length` on a non-empty list. There the code steps past the last node and fails on a missing node, and the model does not represent that failure.
- LinkedLists.LinkedList.FindMiddleValue: requires a non-empty list. On an empty list the code fails on a missing node, and that failure is not represented.
- LinkedLists.LinkedList.FindNthFromEnd: requires `n >= 0` on a non-empty list. For a negative `n` the code walks more than `length` steps and fails on a missing node. On an empty list it answers None first, and the model keeps that answer.
- LinkedLists.LinkedList.GetFirst: requires `Valid()`, although `get_first` also answers on a cyclic list. Every operation except `has_cycle` requires `Valid()`, because only the test helper `create_cycle` builds a cyclic list and only `has_cycle` is meant to run on one. The code would still run some of them on a cyclic list:
  - `add_first` does not walk at all;
  - `reverse` stops after one trip around the cycle, because it has already cleared the old head's link when it meets that node again;
  - `search` and `delete` stop at a match;
  - `get_at_index` returns at once for a negative index.

  The model does not describe these runs.
- LinkedLists.LinkedList.CreateCycle: requires `Valid()`. On a list that is already cyclic, the walk to the last node never ends.
- The `next_node` parameter of the node constructor defaults to `None` in the code. The model always passes the successor explicitly.
