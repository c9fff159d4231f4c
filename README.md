# Verified model of a generic singly linked list

This project models the generic singly linked list of the Go package
`singlylinkedlist`: a chain of heap nodes (`Node[T]` with `Value` and `Next`)
owned by a header (`SinglyLinkedList[T]` with `Head`, `Tail` and `Len`), and
the operations that rewire the chain in place: Push, Pop, Unshift, Shift, Get,
Set, Insert, Remove, Reverse, the private helper getNodeBeforeTail, and the
walk done by Traverse.

The model is imperative, like the code. `Node<T>` and `SinglyLinkedList<T>`
are classes whose fields the methods assign. Each list carries two ghost
fields: `nodes`, the sequence of nodes reachable from `head`, and `Contents`,
the values in those nodes. Two invariants describe the header:

- `Chain()`: `head` is the first of `nodes`, every node links to the next one
  and the last links to null, and `Contents` lists their values.
  Every operation keeps it.
- `Valid()`: `Chain()`, plus `len == |nodes|` and `tail` is the last node.

Every method that changes the list proves `Valid()` again afterwards, except Pop,
and Remove at the last index, on a list of two or more nodes. A null-terminated
chain never repeats a node (`LinkedNodesDiffer`), so it has no cycle; the
model proves this rather than assuming it.

Pop does not do what its doc comment says (singlylinkedlist.go:46). On a list
of two or more nodes it unlinks the last node from its predecessor
(lines 61-64) but never reassigns `Tail` and never decrements `Len`. The model
reproduces this: afterwards only `Chain()` holds, `len` is one more than the
number of reachable nodes, and `tail` is the node that was unlinked. Remove
at the last index of such a list calls Pop and inherits this. The doc comment
promises that Pop "removes and returns the last node", which would leave n-1
nodes with a correct tail and length; the model follows the code instead.
`PushThreeThenPop` traces the demonstration program (main.go:12-20) through
this state: after three pushes and a Pop the walk shows two values, but the
header still counts three and still points at the third node.

Modules: `Sequences` (sequences.dfy) holds the pure reference definitions:
reversal, insertion at an index and removal at an index. `LinkedList`
(linkedlist.dfy) holds the two classes. `ListScenarios` (scenarios.dfy) holds
callers that chain operations, proved from the contracts alone.

## Model

| member | source | states |
|---|---|---|
| `Sequences.Reversed` | singlylinkedlist/singlylinkedlist.go:174-186 | the reference meaning of Reverse: same length, and position k holds the element at position n-1-k |
| `Sequences.ReversedTwice` | singlylinkedlist/singlylinkedlist.go:175-186 | reversing twice gives back the original sequence |
| `Sequences.InsertAt` | singlylinkedlist/singlylinkedlist.go:126-150 | the reference meaning of Insert: one longer, `v` at `i`, earlier elements in place, later ones moved up by one |
| `Sequences.RemoveAt` | singlylinkedlist/singlylinkedlist.go:152-172 | the reference meaning of Remove: one shorter, earlier elements in place, later ones moved down by one |
| `Sequences.RemoveAtInsertAt` | singlylinkedlist/singlylinkedlist.go:127-172 | removing at `i` what was inserted at `i` restores the sequence |
| `LinkedList.Node.constructor` | singlylinkedlist/singlylinkedlist.go:23-28 | NewNode: a node holding the value with no successor |
| `LinkedList.LinkedNodesDiffer` | singlylinkedlist/singlylinkedlist.go:6-16 | in a chain whose last node links to null, two different positions never hold the same node (no cycle) |
| `LinkedList.OthersDiffer` | singlylinkedlist/singlylinkedlist.go:6-16 | in such a chain, the node at position k occurs at no other position |
| `LinkedList.LinkedDistinct` | singlylinkedlist/singlylinkedlist.go:6-16 | every node of such a chain occurs exactly once |
| `LinkedList.SinglyLinkedList.constructor` | singlylinkedlist/singlylinkedlist.go:18-21 | NewSinglyLinkedList: an empty list with head and tail null and length 0 that satisfies Valid() |
| `LinkedList.SinglyLinkedList.Push` | singlylinkedlist/singlylinkedlist.go:30-44 | appends a fresh node holding the value: values `old + [v]`, length + 1. The new node becomes tail; on an empty list it is also head, otherwise head is unchanged. Valid() is kept |
| `LinkedList.SinglyLinkedList.Pop` | singlylinkedlist/singlylinkedlist.go:46-65 | empty list: returns null and changes nothing. One node: returns it, head = tail = null, length 0. Two or more: returns the old tail, the chain keeps the first n-1 values, but tail and len are unchanged, so Valid() holds after Pop iff the old length was below 2 |
| `LinkedList.SinglyLinkedList.Unshift` | singlylinkedlist/singlylinkedlist.go:67-80 | prepends a fresh node: values `[v] + old`, length + 1. The new node becomes head; tail is unchanged unless the list was empty, in which case it is the new node. Valid() is kept |
| `LinkedList.SinglyLinkedList.Shift` | singlylinkedlist/singlylinkedlist.go:82-94 | empty list: returns null. Otherwise returns the old head, values `old[1..]`, length - 1. With one node head and tail become null and the returned node links to null; with two or more tail is unchanged and the returned node still links to the new head. Valid() is kept |
| `LinkedList.SinglyLinkedList.Get` | singlylinkedlist/singlylinkedlist.go:96-113 | null iff `idx < 0 \|\| idx >= len`; otherwise the node at position `idx`, holding `Contents[idx]`; changes nothing |
| `LinkedList.SinglyLinkedList.Set` | singlylinkedlist/singlylinkedlist.go:115-124 | true iff `0 <= idx < len`. Then only the value at `idx` becomes `v`; otherwise nothing changes. Only node values may change. Valid() is kept |
| `LinkedList.SinglyLinkedList.Insert` | singlylinkedlist/singlylinkedlist.go:126-150 | true iff `0 <= idx <= len`. Then values are `InsertAt(old, idx, v)`, length + 1, and a fresh node is at `idx`. Head is unchanged unless `idx == 0`; tail is unchanged unless `idx == len`. Otherwise nothing changes. Valid() is kept |
| `LinkedList.SinglyLinkedList.Remove` | singlylinkedlist/singlylinkedlist.go:152-172 | null, and nothing changes, iff idx is outside `0 .. len-1`. Otherwise returns the node at `idx` and the values become `RemoveAt(old, idx)`. Valid() holds afterwards unless `0 < idx == len-1`, the Pop case, where len and tail stay stale. For `0 < idx < len` head and tail are unchanged. The returned node keeps its link to its old successor (null for the last node). `value` is not used |
| `LinkedList.SinglyLinkedList.Reverse` | singlylinkedlist/singlylinkedlist.go:174-186 | the node order and the values become the reverse of the old ones, head and tail swap, length unchanged. Valid() is kept |
| `LinkedList.SinglyLinkedList.ReverseLinks` | singlylinkedlist/singlylinkedlist.go:176-183 | the loop of Reverse: afterwards every node of the chain links to its predecessor and the first node to null; no value changes |
| `LinkedList.ReversedLinked` | singlylinkedlist/singlylinkedlist.go:175-186 | a chain whose links all point backwards, the first node ending in null, is a null-terminated chain when read back to front |
| `LinkedList.SinglyLinkedList.GetNodeBeforeTail` | singlylinkedlist/singlylinkedlist.go:188-206 | null for length <= 1; otherwise the node at position len-2, whose successor is tail |
| `LinkedList.SinglyLinkedList.Traverse` | singlylinkedlist/singlylinkedlist.go:208-222 | the values met walking from head are exactly `Contents`. Needs only Chain(), so it also works after a Pop that left the header stale |
| `ListScenarios.PushThreeThenPop` | main.go:12-20 | after Push x, y, z the walk is `[x, y, z]`. Pop returns z and the walk becomes `[x, y]`, yet len is still 3 and tail still holds z |
| `ListScenarios.PushThenPopOnEmpty` | singlylinkedlist/singlylinkedlist.go:31-59 | Push then Pop on an empty list returns the freshly pushed node, holding v, and leaves the list empty and Valid() |
| `ListScenarios.PopThenPushOnOne` | singlylinkedlist/singlylinkedlist.go:31-59 | Pop then Push of the popped value on a one-node list restores the values and the length and keeps Valid() |
| `ListScenarios.InsertThenRemove` | singlylinkedlist/singlylinkedlist.go:127-172 | Insert(i, v) then Remove(i) returns v's node and restores the values. Valid() and the length come back iff `i < len` or the list was empty. Otherwise (`i == len > 0`, Remove goes through Pop) the length is one more than before and one more than the reachable nodes |
| `ListScenarios.SetThenGet` | singlylinkedlist/singlylinkedlist.go:97-124 | Get(i) after Set(i, v) at a valid i returns a node holding v |
| `ListScenarios.ReverseTwice` | singlylinkedlist/singlylinkedlist.go:175-186 | two Reverses restore the values, the node order, head, tail and length |

## Left out

- Printing in Traverse (`fmt.Printf` with `%v`, the arrows and the final `nil`): generic formatting is a library call. Traverse returns the walked values instead.
- Operations after a Pop that left the header stale: every operation except Traverse requires Valid(). The real code goes on from that state. A later Push writes into the unlinked node, and a second Pop returns the same stale tail. Reverse makes the unlinked node the head, and Insert's middle path can dereference a nil predecessor. None of this is modelled. So main.go is traced only up to its first Pop; its final Reverse, which really prints `30 -> nil` and `C -> nil`, is not derived.
- Pop followed by Push does not restore a list of two or more nodes, although the doc comment of Pop (singlylinkedlist.go:46) implies it would. In the code the pushed value goes into the unlinked node. The model states only the one-node case (`PopThenPushOnOne`), because Push requires Valid().
- Go's nil-pointer panics: the preconditions (Valid(), and Chain() for Traverse) exclude every state in which one could happen.
- Garbage collection of unlinked nodes and the memory they hold; there is no concurrency in the code to model.
- `Len` is a Go `int` (64 bits); the model uses an unbounded `int`, since overflow would need more than 2^63 nodes.
- Ownership: the returned node of Shift and of Remove's middle path keeps its `Next` link into the list, as in the code. Nothing stops a caller from changing it, and the model does not track such aliasing beyond what the contracts state.
- Reverse's loop is a separate method, `ReverseLinks`, that Reverse calls before swapping `head` and `tail`. It takes the same steps in the same order as the loop at singlylinkedlist.go:178-183. The split keeps each proof small.
