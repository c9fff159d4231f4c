// The generic singly linked list of singlylinkedlist/singlylinkedlist.go: a chain of
// heap nodes owned by a header that keeps the first node, the last node and a length.
//
// Two invariants are kept apart on purpose. Chain() says that the nodes reachable
// from `head` are exactly the ghost sequence `nodes`, linked in order and ending in
// null (such a chain never repeats a node: LinkedNodesDiffer); every operation keeps
// it. Valid() adds that `len` counts those nodes and that `tail` is the last of them.
// Pop on a list of two or more nodes unlinks the last node but leaves `tail` and `len`
// as they were, so after it only Chain() holds; Remove at the last index of such a
// list inherits this through its call to Pop. Traverse needs only Chain(); every
// other operation requires Valid(), and those that change the list re-establish it,
// except in the two cases just named.

module LinkedList {
  import opened Sequences

  /** One element: a value and the link to the next node (null on the last one). */
  class Node<T> {
    var value: T
    var next: Node?<T>

    /** A new node holding `value`, not yet linked to anything. */
    constructor (value: T)
      ensures this.value == value && next == null
    {
      this.value := value;
      next := null;
    }
  }

  /** Each node of `ns` links to the one after it, and the last one to null. */
  ghost predicate Linked<T>(ns: seq<Node<T>>)
    reads ns
  {
    (forall i :: 0 <= i < |ns| - 1 ==> ns[i].next == ns[i + 1]) &&
    (ns != [] ==> ns[|ns| - 1].next == null)
  }

  /** No node occurs twice in `ns`. */
  ghost predicate Distinct<T>(ns: seq<Node<T>>) {
    forall i, j :: 0 <= i < j < |ns| ==> ns[i] != ns[j]
  }

  /** A null-terminated chain has no cycle: two positions never hold the same node. */
  lemma {:induction false} LinkedNodesDiffer<T>(ns: seq<Node<T>>, i: int, j: int)
    requires Linked(ns)
    requires 0 <= i < j < |ns|
    ensures ns[i] != ns[j]
    decreases |ns| - j
  {
    if j < |ns| - 1 {
      LinkedNodesDiffer(ns, i + 1, j + 1);
      assert ns[i].next == ns[i + 1] && ns[j].next == ns[j + 1];
    } else {
      assert ns[i].next == ns[i + 1] && ns[j].next == null;
    }
  }

  /** The node at position `k` of a null-terminated chain occurs nowhere else in it. */
  lemma OthersDiffer<T>(ns: seq<Node<T>>, k: int)
    requires Linked(ns)
    requires 0 <= k < |ns|
    ensures forall i :: 0 <= i < |ns| && i != k ==> ns[i] != ns[k]
  {
    forall i | 0 <= i < |ns| && i != k
      ensures ns[i] != ns[k]
    {
      if i < k {
        LinkedNodesDiffer(ns, i, k);
      } else {
        LinkedNodesDiffer(ns, k, i);
      }
    }
  }

  /** Every node of a null-terminated chain occurs once. */
  lemma LinkedDistinct<T>(ns: seq<Node<T>>)
    requires Linked(ns)
    ensures Distinct(ns)
  {
    forall i, j | 0 <= i < j < |ns|
      ensures ns[i] != ns[j]
    {
      LinkedNodesDiffer(ns, i, j);
    }
  }

  /** Every node links to the one before it, and the first node to null: a chain
    * read back to front. */
  ghost predicate BackLinked<T>(ns: seq<Node<T>>)
    reads ns
  {
    (forall i :: 0 < i < |ns| ==> ns[i].next == ns[i - 1]) &&
    (ns != [] ==> ns[0].next == null)
  }

  /** A chain whose links all point backwards, the first node ending in null, is a
    * null-terminated chain when read back to front. */
  lemma ReversedLinked<T>(ns: seq<Node<T>>)
    requires BackLinked(ns)
    ensures Linked(Reversed(ns))
  {
    var rs := Reversed(ns);
    forall i | 0 <= i < |rs| - 1
      ensures rs[i].next == rs[i + 1]
    {
      assert rs[i] == ns[|ns| - 1 - i] && rs[i + 1] == ns[|ns| - 1 - i - 1];
    }
  }

  /** Nodes holding `vals` position by position still do so when both are reversed. */
  lemma ReversedValues<T>(ns: seq<Node<T>>, vals: seq<T>)
    requires |ns| == |vals|
    requires forall i :: 0 <= i < |ns| ==> ns[i].value == vals[i]
    ensures forall i :: 0 <= i < |ns| ==> Reversed(ns)[i].value == Reversed(vals)[i]
  {
  }

  class SinglyLinkedList<T> {
    var head: Node?<T>
    var tail: Node?<T>
    var len: int

    /** The nodes reachable from `head`, in order. */
    ghost var nodes: seq<Node<T>>
    /** The values met when walking the chain from `head`, in order. */
    ghost var Contents: seq<T>

    /** The chain from `head` is `nodes` (no node twice, by LinkedDistinct). */
    ghost predicate Chain()
      reads this, nodes
    {
      head == (if nodes == [] then null else nodes[0]) &&
      Linked(nodes) &&
      |Contents| == |nodes| &&
      forall i :: 0 <= i < |nodes| ==> nodes[i].value == Contents[i]
    }

    /** The full list invariant: the chain, its length in `len` and its last node in `tail`. */
    ghost predicate Valid()
      reads this, nodes
    {
      Chain() &&
      len == |nodes| &&
      tail == (if nodes == [] then null else nodes[|nodes| - 1])
    }

    /** An empty list. */
    constructor ()
      ensures Valid()
      ensures head == null && tail == null && len == 0 && nodes == [] && Contents == []
    {
      head, tail, len := null, null, 0;
      nodes, Contents := [], [];
    }

    /** Appends a new node holding `value` after the last one. */
    method Push(value: T)
      requires Valid()
      modifies this, nodes
      ensures Valid()
      ensures tail != null && fresh(tail)
      ensures nodes == old(nodes) + [tail]
      ensures Contents == old(Contents) + [value]
      ensures len == old(len) + 1
      ensures head == if old(len) == 0 then tail else old(head)
    {
      ghost var ns := nodes;
      var newNode := new Node(value);
      if head == null {
        head := newNode;
        tail := newNode;
        len := len + 1;
        nodes := [newNode];
        Contents := [value];
        return;
      }
      OthersDiffer(ns, |ns| - 1);
      tail.next := newNode;
      tail := newNode;
      len := len + 1;
      nodes := ns + [newNode];
      assert Linked(nodes);
      Contents := Contents + [value];
    }

    /** Unlinks the last node from the chain and returns it; null on an empty list.
      * With two or more nodes `tail` and `len` are left unchanged, so Valid() is lost. */
    method Pop() returns (r: Node?<T>)
      requires Valid()
      modifies this, nodes
      ensures Chain()
      ensures Valid() <==> old(len) < 2
      ensures old(len) == 0 ==> r == null && nodes == old(nodes) && head == old(head) && tail == old(tail) && len == old(len)
      ensures old(len) == 1 ==> r == old(head) && nodes == [] && head == null && tail == null && len == 0
      ensures old(len) >= 2 ==> r == old(tail) && nodes == old(nodes)[..old(len) - 1] && head == old(head)
      ensures old(len) >= 2 ==> tail == old(tail) && len == old(len) && tail !in nodes && len == |nodes| + 1
      ensures r != null ==> r.next == null && r.value == old(Contents)[old(len) - 1]
      ensures Contents == if old(len) == 0 then old(Contents) else old(Contents)[..old(len) - 1]
    {
      if len == 0 {
        return null;
      }
      if len == 1 {
        var poppedNode := head;
        head := null;
        tail := null;
        len := 0;
        nodes := [];
        Contents := [];
        return poppedNode;
      }
      ghost var ns := nodes;
      var oldTail := tail;
      var nodeBeforeTail := GetNodeBeforeTail();
      OthersDiffer(ns, |ns| - 2);
      OthersDiffer(ns, |ns| - 1);
      nodeBeforeTail.next := null;
      nodes := ns[..|ns| - 1];
      assert Linked(nodes);
      Contents := Contents[..|ns| - 1];
      return oldTail;
    }

    /** Prepends a new node holding `value`; on an empty list this is Push. */
    method Unshift(value: T)
      requires Valid()
      modifies this, nodes
      ensures Valid()
      ensures head != null && fresh(head)
      ensures nodes == [head] + old(nodes)
      ensures Contents == [value] + old(Contents)
      ensures len == old(len) + 1
      ensures tail == if old(len) == 0 then head else old(tail)
    {
      if len == 0 {
        Push(value);
        return;
      }
      ghost var ns := nodes;
      var newNode := new Node(value);
      var currHead := head;
      newNode.next := currHead;
      head := newNode;
      len := len + 1;
      nodes := [newNode] + ns;
      assert forall i :: 1 <= i < |nodes| ==> nodes[i] == ns[i - 1];
      assert Linked(nodes);
      Contents := [value] + Contents;
    }

    /** Unlinks the first node and returns it; null on an empty list. With fewer than
      * two nodes this is Pop. The returned node keeps its link into the list. */
    method Shift() returns (r: Node?<T>)
      requires Valid()
      modifies this, nodes
      ensures Valid()
      ensures old(len) == 0 ==> r == null && nodes == [] && head == null && tail == null && len == 0
      ensures old(len) >= 1 ==> r == old(head) && nodes == old(nodes)[1..] && len == old(len) - 1
      ensures old(len) == 1 ==> head == null && tail == null && r.next == null
      ensures old(len) >= 2 ==> tail == old(tail) && r.next == head
      ensures r != null ==> r.value == old(Contents)[0]
      ensures Contents == if old(len) == 0 then [] else old(Contents)[1..]
    {
      if len < 2 {
        r := Pop();
        return;
      }
      ghost var ns := nodes;
      var oldHead := head;
      var newHead := oldHead.next;
      head := newHead;
      len := len - 1;
      nodes := ns[1..];
      assert Linked(nodes);
      Contents := Contents[1..];
      return oldHead;
    }

    /** The node at position `idx`, found by walking from `head`; null when `idx` is
      * outside 0 .. len - 1. */
    method Get(idx: int) returns (r: Node?<T>)
      requires Valid()
      ensures r == null <==> idx < 0 || idx >= len
      ensures r != null ==> r == nodes[idx] && r.value == Contents[idx]
    {
      if idx < 0 || idx >= len {
        return null;
      }
      var currIdx := 0;
      var curr := head;
      while curr != null
        invariant 0 <= currIdx <= idx
        invariant curr == nodes[currIdx]
        decreases |nodes| - currIdx
      {
        if currIdx == idx {
          return curr;
        }
        curr := curr.next;
        currIdx := currIdx + 1;
      }
      assert false;
    }

    /** Overwrites the value at position `idx`; false, and no change, when `idx` is
      * outside 0 .. len - 1. */
    method Set(idx: int, value: T) returns (ok: bool)
      requires Valid()
      modifies this`Contents, nodes
      ensures Valid()
      ensures ok <==> 0 <= idx < len
      ensures Contents == if ok then old(Contents)[idx := value] else old(Contents)
    {
      var foundNode := Get(idx);
      if foundNode != null {
        OthersDiffer(nodes, idx);
        foundNode.value := value;
        Contents := Contents[idx := value];
        assert Linked(nodes);
        return true;
      }
      return false;
    }

    /** Places a new node holding `value` at position `idx`; false, and no change, when
      * `idx` is outside 0 .. len. Position 0 is Unshift, position len is Push. */
    method Insert(idx: int, value: T) returns (ok: bool)
      requires Valid()
      modifies this, nodes
      ensures Valid()
      ensures ok <==> 0 <= idx <= old(len)
      ensures !ok ==> nodes == old(nodes) && head == old(head) && tail == old(tail) && len == old(len)
      ensures !ok ==> Contents == old(Contents)
      ensures ok ==> len == old(len) + 1 && Contents == InsertAt(old(Contents), idx, value)
      ensures ok ==> fresh(nodes[idx]) && nodes == InsertAt(old(nodes), idx, nodes[idx])
      ensures ok && idx > 0 ==> head == old(head)
      ensures ok && idx < old(len) ==> tail == old(tail)
    {
      if idx < 0 || idx > len {
        return false;
      }
      if idx == 0 {
        Unshift(value);
        return true;
      }
      if idx == len {
        Push(value);
        return true;
      }
      ghost var ns := nodes;
      var newNode := new Node(value);
      var prev := Get(idx - 1);
      OthersDiffer(ns, idx - 1);
      var prevNext := prev.next;
      prev.next := newNode;
      newNode.next := prevNext;
      len := len + 1;
      nodes := InsertAt(ns, idx, newNode);
      Contents := InsertAt(Contents, idx, value);
      assert Valid() by {
        forall i | 0 <= i < |nodes| - 1
          ensures nodes[i].next == nodes[i + 1]
        {
          if i < idx - 1 {
            assert nodes[i] == ns[i] && nodes[i + 1] == ns[i + 1];
          } else if idx < i {
            assert nodes[i] == ns[i - 1] && nodes[i + 1] == ns[i];
          }
        }
        assert nodes[|nodes| - 1] == ns[|ns| - 1];
        assert head == nodes[0] && tail == nodes[|nodes| - 1];
      }
      return true;
    }

    /** Unlinks the node at position `idx` and returns it; null, and no change, when
      * `idx` is outside 0 .. len - 1. Position 0 is Shift, position len - 1 is Pop,
      * with Pop's stale `tail` and `len` when the list had two or more nodes.
      * `value` is not used. */
    method Remove(idx: int, value: T) returns (r: Node?<T>)
      requires Valid()
      modifies this, nodes
      ensures Chain()
      ensures r == null <==> idx < 0 || idx >= old(len)
      ensures r == null ==> nodes == old(nodes) && head == old(head) && tail == old(tail) && len == old(len)
      ensures r == null ==> Contents == old(Contents)
      ensures r != null ==> r == old(nodes)[idx] && nodes == RemoveAt(old(nodes), idx)
      ensures r != null ==> r.value == old(Contents)[idx] && Contents == RemoveAt(old(Contents), idx)
      ensures Valid() <==> !(0 < idx && idx == old(len) - 1)
      ensures r != null ==> len == if 0 < idx && idx == old(len) - 1 then old(len) else old(len) - 1
      ensures 0 < idx < old(len) ==> head == old(head) && tail == old(tail)
      ensures r != null ==> r.next == if idx + 1 < old(len) then old(nodes)[idx + 1] else null
    {
      if idx < 0 || idx >= len {
        return null;
      }
      if idx == 0 {
        r := Shift();
        return;
      }
      if idx == len - 1 {
        r := Pop();
        return;
      }
      ghost var ns := nodes;
      var prev := Get(idx - 1);
      OthersDiffer(ns, idx - 1);
      var removedNode := prev.next;
      assert removedNode == ns[idx];
      prev.next := removedNode.next;
      len := len - 1;
      nodes := RemoveAt(ns, idx);
      assert Linked(nodes);
      Contents := RemoveAt(Contents, idx);
      return removedNode;
    }

    /** Turns every link around with the previous/current/next walk (ReverseLinks),
      * then swaps `head` and `tail`. */
    method Reverse()
      requires Valid()
      modifies this, nodes
      ensures Valid()
      ensures nodes == Reversed(old(nodes))
      ensures Contents == Reversed(old(Contents))
      ensures head == old(tail) && tail == old(head) && len == old(len)
    {
      ghost var ns, vals := nodes, Contents;
      ReverseLinks(head, ns);
      assert forall i :: 0 <= i < |ns| ==> ns[i].value == vals[i];
      ReversedLinked(ns);
      ReversedValues(ns, vals);
      head, tail := tail, head;
      nodes := Reversed(ns);
      Contents := Reversed(vals);
      assert head == (if nodes == [] then null else nodes[0]);
      assert tail == (if nodes == [] then null else nodes[|nodes| - 1]);
    }

    /** The loop of Reverse: walks the chain `ns` from `first` with three pointers and
      * turns every link around, so that each node points at its predecessor and the
      * first node at null. Values are left alone. */
    static method ReverseLinks(first: Node?<T>, ghost ns: seq<Node<T>>)
      requires Linked(ns)
      requires first == if ns == [] then null else ns[0]
      modifies ns
      ensures BackLinked(ns)
      ensures forall i :: 0 <= i < |ns| ==> ns[i].value == old(ns[i].value)
    {
      LinkedDistinct(ns);
      ghost var k := 0;
      var curr := first;
      var prev: Node?<T> := null;
      while curr != null
        invariant 0 <= k <= |ns|
        invariant curr == if k < |ns| then ns[k] else null
        invariant prev == if k == 0 then null else ns[k - 1]
        invariant forall i :: 0 < i < k ==> ns[i].next == ns[i - 1]
        invariant 0 < k ==> ns[0].next == null
        invariant forall i :: k <= i < |ns| - 1 ==> ns[i].next == ns[i + 1]
        invariant k < |ns| ==> ns[|ns| - 1].next == null
        invariant forall i :: 0 <= i < |ns| ==> ns[i].value == old(ns[i].value)
        decreases |ns| - k
      {
        var next := curr.next;
        curr.next := prev;
        prev := curr;
        curr := next;
        k := k + 1;
      }
    }

    /** The last-but-one node of a list of two or more nodes, found by walking until
      * a node without successor; null for shorter lists. */
    method GetNodeBeforeTail() returns (r: Node?<T>)
      requires Valid()
      ensures len <= 1 ==> r == null
      ensures len >= 2 ==> r == nodes[len - 2] && r.next == tail
    {
      if len <= 1 {
        return null;
      }
      if len == 2 {
        return head;
      }
      var curr: Node<T> := head;
      var nodeBeforeTail: Node?<T> := null;
      ghost var k := 0;
      while curr.next != null
        invariant 0 <= k < |nodes|
        invariant curr == nodes[k]
        invariant curr.next == if k + 1 < |nodes| then nodes[k + 1] else null
        invariant nodeBeforeTail == if k == 0 then null else nodes[k - 1]
        decreases |nodes| - k
      {
        nodeBeforeTail := curr;
        curr := curr.next;
        k := k + 1;
      }
      return nodeBeforeTail;
    }

    /** The values met when walking the chain from `head`: the printing walk without
      * the printing. Needs only the chain, so it also reads a list that Pop left stale. */
    method Traverse() returns (vals: seq<T>)
      requires Chain()
      ensures vals == Contents
    {
      vals := [];
      var curr := head;
      ghost var k := 0;
      while curr != null
        invariant 0 <= k <= |nodes|
        invariant curr == if k < |nodes| then nodes[k] else null
        invariant vals == Contents[..k]
        decreases |nodes| - k
      {
        vals := vals + [curr.value];
        curr := curr.next;
        k := k + 1;
      }
    }
  }
}
