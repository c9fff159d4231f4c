// What callers of the list can rely on when they chain its operations, proved from
// the operations' contracts alone: round trips, and the demonstration program's first
// steps with the outcome the code really has.

module ListScenarios {
  import opened Sequences
  import opened LinkedList

  /** The demonstration program's opening: three pushes, a traversal, a Pop and a
    * second traversal. The second traversal shows the first two values, but the
    * header still counts three nodes and still points at the unlinked third one. */
  method PushThreeThenPop<T>(x: T, y: T, z: T)
    returns (before: seq<T>, after: seq<T>, popped: T, staleLen: int, staleTail: T)
    ensures before == [x, y, z]
    ensures after == [x, y]
    ensures popped == z
    ensures staleLen == 3 && staleTail == z
  {
    var list := new SinglyLinkedList<T>();
    list.Push(x);
    list.Push(y);
    list.Push(z);
    assert list.Contents == [x, y, z] && list.len == 3 && list.tail.value == z;
    before := list.Traverse();
    var r := list.Pop();
    after := list.Traverse();
    popped := r.value;
    staleLen := list.len;
    staleTail := list.tail.value;
  }

  /** Push then Pop on an empty list returns the pushed node and leaves the list empty. */
  method PushThenPopOnEmpty<T>(list: SinglyLinkedList<T>, v: T) returns (r: Node?<T>)
    requires list.Valid() && list.len == 0
    modifies list, list.nodes
    ensures list.Valid() && list.len == 0 && list.head == null && list.tail == null
    ensures list.Contents == []
    ensures r != null && fresh(r) && r.value == v
  {
    list.Push(v);
    r := list.Pop();
  }

  /** Insert at `i` followed by Remove at `i` gives back the inserted value and the
    * original values. The header is whole again unless `i` was the end of a
    * non-empty list: then Remove goes through Pop and leaves `tail` and `len` stale. */
  method InsertThenRemove<T>(list: SinglyLinkedList<T>, i: int, v: T) returns (r: Node?<T>)
    requires list.Valid() && 0 <= i <= list.len
    modifies list, list.nodes
    ensures list.Chain() && list.Contents == old(list.Contents)
    ensures r != null && r.value == v
    ensures list.Valid() <==> i < old(list.len) || old(list.len) == 0
    ensures list.Valid() ==> list.len == old(list.len)
    ensures !list.Valid() ==> list.len == old(list.len) + 1 && list.len == |list.nodes| + 1
  {
    var ok := list.Insert(i, v);
    r := list.Remove(i, v);
    RemoveAtInsertAt(old(list.Contents), i, v);
  }

  /** Pop then Push on a one-node list puts the value back: the list is whole again.
    * (With two or more nodes Pop leaves the header stale and Push cannot follow.) */
  method PopThenPushOnOne<T>(list: SinglyLinkedList<T>)
    requires list.Valid() && list.len == 1
    modifies list, list.nodes
    ensures list.Valid() && list.Contents == old(list.Contents) && list.len == old(list.len)
  {
    var r := list.Pop();
    list.Push(r.value);
  }

  /** Get after Set at a valid position yields the node now holding the new value. */
  method SetThenGet<T>(list: SinglyLinkedList<T>, i: int, v: T) returns (n: Node?<T>)
    requires list.Valid() && 0 <= i < list.len
    modifies list`Contents, list.nodes
    ensures list.Valid() && list.Contents == old(list.Contents)[i := v]
    ensures n != null && n.value == v
  {
    var ok := list.Set(i, v);
    n := list.Get(i);
  }

  /** Reversing twice restores the values, the node order, and `head` and `tail`. */
  method ReverseTwice<T>(list: SinglyLinkedList<T>)
    requires list.Valid()
    modifies list, list.nodes
    ensures list.Valid()
    ensures list.Contents == old(list.Contents) && list.nodes == old(list.nodes)
    ensures list.head == old(list.head) && list.tail == old(list.tail) && list.len == old(list.len)
  {
    ghost var ns := list.nodes;
    list.Reverse();
    assert forall o :: o in list.nodes ==> o in ns;
    list.Reverse();
    ReversedTwice(ns);
    ReversedTwice(old(list.Contents));
  }
}
