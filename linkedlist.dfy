/**
 * The singly linked list of library.c (struct LinkedList over struct Node). The
 * chain of nodes from `head` is modelled by the sequence of their data, head
 * first; `size` is the counter the source keeps beside it. Node identity is
 * data equality, the source's pointer comparison.
 */
module LinkedList {

  /** The list after removeLinkedListNode: the first node holding x is unlinked. */
  function RemoveFirstOccurrence<T(==)>(s: seq<T>, x: T): seq<T>
  {
    if |s| == 0 then []
    else if s[0] == x then s[1..]
    else [s[0]] + RemoveFirstOccurrence(s[1..], x)
  }

  /** Without a node holding x, nothing is unlinked. */
  lemma {:induction false} RemoveAbsent<T>(s: seq<T>, x: T)
    requires x !in s
    ensures RemoveFirstOccurrence(s, x) == s
  {
    if |s| > 0 {
      RemoveAbsent(s[1..], x);
    }
  }

  /**
   * When the first node holding x is at position i, removal keeps the nodes before
   * and after it, in order.
   */
  lemma {:induction false} RemoveAtFirstOccurrence<T>(s: seq<T>, x: T, i: nat)
    requires i < |s| && s[i] == x && x !in s[..i]
    ensures RemoveFirstOccurrence(s, x) == s[..i] + s[i + 1..]
  {
    if i > 0 {
      assert s[0] in s[..i];
      assert s[1..][..i - 1] == s[1..i];
      RemoveAtFirstOccurrence(s[1..], x, i - 1);
      assert s[..i] == [s[0]] + s[1..i];
    }
  }

  /** Removing a present value takes out exactly one occurrence of it. */
  lemma {:induction false} RemovePresent<T>(s: seq<T>, x: T)
    requires x in s
    ensures |RemoveFirstOccurrence(s, x)| == |s| - 1
    ensures multiset(RemoveFirstOccurrence(s, x)) == multiset(s) - multiset{x}
  {
    if s[0] != x {
      RemovePresent(s[1..], x);
      assert s == [s[0]] + s[1..];
    } else {
      assert s == [s[0]] + s[1..];
    }
  }

  class List<T(==)> {
    /** The data of the nodes from head to tail. */
    var nodes: seq<T>
    var size: nat

    ghost predicate Valid()
      reads this
    {
      size == |nodes|
    }

    /** initLinkedList: no head, size 0. */
    constructor ()
      ensures Valid() && nodes == []
    {
      nodes := [];
      size := 0;
    }

    /** insert: a new node becomes the head. */
    method Insert(data: T)
      requires Valid()
      modifies this
      ensures Valid() && nodes == [data] + old(nodes) && size == old(size) + 1
    {
      nodes := [data] + nodes;
      size := size + 1;
    }

    /** isLinkedListEmpty: the size counter is 0. */
    method IsEmpty() returns (empty: bool)
      requires Valid()
      ensures empty <==> nodes == []
    {
      empty := size == 0;
    }

    /** getLinkedListSize. */
    method GetSize() returns (n: nat)
      requires Valid()
      ensures n == |nodes|
    {
      n := size;
    }

    /** removeFirstLinkedNode: the head is unlinked; an empty list is left as it is. */
    method RemoveFirst()
      requires Valid()
      modifies this
      ensures Valid()
      ensures old(nodes) == [] ==> nodes == []
      ensures old(nodes) != [] ==> nodes == old(nodes)[1..]
    {
      var empty := IsEmpty();
      if empty {
        return;
      }
      nodes := nodes[1..];
      size := size - 1;
    }

    /**
     * removeLinkedListNode: walk from the head to the first node holding `data`
     * and unlink it; an empty list or one without such a node is left as it is.
     */
    method Remove(data: T)
      requires Valid()
      modifies this
      ensures Valid() && nodes == RemoveFirstOccurrence(old(nodes), data)
      ensures size == if data in old(nodes) then old(size) - 1 else old(size)
    {
      var empty := IsEmpty();
      if empty {
        return;
      }
      var i := 0;
      while i < |nodes|
        invariant i <= |nodes|
        invariant data !in nodes[..i]
      {
        if nodes[i] == data {
          RemoveAtFirstOccurrence(nodes, data, i);
          RemovePresent(nodes, data);
          nodes := nodes[..i] + nodes[i + 1..];
          size := size - 1;
          return;
        }
        i := i + 1;
      }
      assert nodes[..i] == nodes;
      RemoveAbsent(nodes, data);
    }

    /** freeLinkedList: remove the head until the list is empty. */
    method Free()
      requires Valid()
      modifies this
      ensures Valid() && nodes == [] && size == 0
    {
      var empty := IsEmpty();
      while !empty
        invariant Valid()
        invariant empty <==> nodes == []
        decreases |nodes|
      {
        RemoveFirst();
        empty := IsEmpty();
      }
    }
  }
}
