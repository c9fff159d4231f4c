// Pure sequence operations that give the abstract meaning of the list
// operations: reversal, insertion at an index and removal at an index.

module Sequences {

  /** `s` read back to front: what reversing a list does to its values. */
  function Reversed<X>(s: seq<X>): (r: seq<X>)
    ensures |r| == |s|
    ensures forall k :: 0 <= k < |s| ==> r[k] == s[|s| - 1 - k]
  {
    if s == [] then [] else [s[|s| - 1]] + Reversed(s[..|s| - 1])
  }

  /** Reversing twice gives back the original sequence. */
  lemma {:induction false} ReversedTwice<X>(s: seq<X>)
    ensures Reversed(Reversed(s)) == s
  {
    var r := Reversed(Reversed(s));
    forall k | 0 <= k < |s|
      ensures r[k] == s[k]
    {
      assert Reversed(s)[|s| - 1 - k] == s[k];
    }
  }

  /** `s` with `v` placed at position `i`, the later elements moved one up. */
  function InsertAt<X>(s: seq<X>, i: nat, v: X): (r: seq<X>)
    requires i <= |s|
    ensures |r| == |s| + 1
    ensures r[i] == v
    ensures forall k :: 0 <= k < i ==> r[k] == s[k]
    ensures forall k :: i < k < |r| ==> r[k] == s[k - 1]
  {
    s[..i] + [v] + s[i..]
  }

  /** `s` without its element at position `i`, the later elements moved one down. */
  function RemoveAt<X>(s: seq<X>, i: nat): (r: seq<X>)
    requires i < |s|
    ensures |r| == |s| - 1
    ensures forall k :: 0 <= k < i ==> r[k] == s[k]
    ensures forall k :: i <= k < |r| ==> r[k] == s[k + 1]
  {
    s[..i] + s[i + 1..]
  }

  /** Removing what was just inserted at the same position restores the sequence. */
  lemma RemoveAtInsertAt<X>(s: seq<X>, i: nat, v: X)
    requires i <= |s|
    ensures RemoveAt(InsertAt(s, i, v), i) == s
  {
    var r := RemoveAt(InsertAt(s, i, v), i);
    assert forall k :: 0 <= k < |s| ==> r[k] == s[k];
  }
}
