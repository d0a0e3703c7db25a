/**
 * The dynamic array of library.c (struct Array, initArray, insertArrayElement,
 * getArrayElement, freeArray): a buffer of `capacity` slots whose first `size`
 * slots hold the elements.
 */
module DynamicArray {

  /**
   * The effect of insertArrayElement on the element sequence as the code is
   * written: slots index+1..size receive the elements from index..size-1 (the
   * shift loop), and the element is then stored at the old size, not at index.
   */
  function InsertAsWritten<T>(s: seq<T>, x: T, index: nat): seq<T>
    requires index <= |s|
  {
    if index == |s| then s + [x] else s[..index + 1] + s[index..|s| - 1] + [x]
  }

  /** Insertion of x at position index, what the comment of insertArrayElement promises. */
  function InsertAt<T>(s: seq<T>, x: T, index: nat): seq<T>
    requires index <= |s|
  {
    s[..index] + [x] + s[index..]
  }

  /** Removal of the element at position index. */
  function RemoveAt<T>(s: seq<T>, index: nat): seq<T>
    requires index < |s|
  {
    s[..index] + s[index + 1..]
  }

  /**
   * As written, inserting before the end keeps the slots up to index, shifts the
   * rest right, loses the old last element and puts x last: s[index] ends up
   * twice and x is not at index.
   */
  lemma InsertAsWrittenEffect<T>(s: seq<T>, x: T, index: nat)
    requires index < |s|
    ensures |InsertAsWritten(s, x, index)| == |s| + 1
    ensures forall j :: 0 <= j <= index ==> InsertAsWritten(s, x, index)[j] == s[j]
    ensures forall j :: index < j < |s| ==> InsertAsWritten(s, x, index)[j] == s[j - 1]
    ensures InsertAsWritten(s, x, index)[|s|] == x
    ensures multiset(InsertAsWritten(s, x, index)) ==
            multiset(s) - multiset{s[|s| - 1]} + multiset{s[index], x}
  {
    var r := InsertAsWritten(s, x, index);
    assert s == s[..|s| - 1] + [s[|s| - 1]];
    assert s[..|s| - 1] == s[..index] + s[index..|s| - 1];
    assert s[..index + 1] == s[..index] + [s[index]];
    assert r == s[..index] + [s[index]] + s[index..|s| - 1] + [x];
    assert multiset(r) == multiset(s[..|s| - 1]) + multiset{s[index], x};
  }

  /**
   * A sequence that agrees slot by slot with what the shift loop and the final
   * store of insertArrayElement leave behind is InsertAsWritten of the old one.
   */
  lemma InsertAsWrittenPointwise<T>(s: seq<T>, x: T, index: nat, t: seq<T>)
    requires index <= |s| && |t| == |s| + 1
    requires forall j :: 0 <= j <= index && j < |s| ==> t[j] == s[j]
    requires forall j :: index < j < |s| ==> t[j] == s[j - 1]
    requires t[|s|] == x
    ensures t == InsertAsWritten(s, x, index)
  {
    if index < |s| {
      InsertAsWrittenEffect(s, x, index);
    }
  }

  /** The input that shows the defect: inserting 9 at index 0 of [1, 2]. */
  lemma InsertAsWrittenCounterexample()
    ensures InsertAsWritten([1, 2], 9, 0) == [1, 1, 9]
    ensures InsertAt([1, 2], 9, 0) == [9, 1, 2]
  {
  }

  /** At the end of the array the code as written and the intended insertion agree. */
  lemma InsertAsWrittenAtEnd<T>(s: seq<T>, x: T)
    ensures InsertAsWritten(s, x, |s|) == InsertAt(s, x, |s|) == s + [x]
  {
  }

  /**
   * The intended insertion: x lands at index, the elements before it stay, those
   * from index on move one place right, and removing index again gives back s.
   */
  lemma InsertAtProperties<T>(s: seq<T>, x: T, index: nat)
    requires index <= |s|
    ensures |InsertAt(s, x, index)| == |s| + 1 && InsertAt(s, x, index)[index] == x
    ensures forall j :: 0 <= j < index ==> InsertAt(s, x, index)[j] == s[j]
    ensures forall j :: index < j <= |s| ==> InsertAt(s, x, index)[j] == s[j - 1]
    ensures multiset(InsertAt(s, x, index)) == multiset(s) + multiset{x}
    ensures RemoveAt(InsertAt(s, x, index), index) == s
  {
    var r := InsertAt(s, x, index);
    assert s == s[..index] + s[index..];
    assert r[..index] == s[..index];
    assert r[index + 1..] == s[index..];
  }

  class Array<T(0)> {
    var elems: array<T>
    var size: nat
    var capacity: nat

    ghost predicate Valid()
      reads this
    {
      elems.Length == capacity && size <= capacity
    }

    /** The elements: the first `size` slots of the buffer. */
    ghost function Elements(): seq<T>
      reads this, elems
      requires Valid()
    {
      elems[..size]
    }

    /** initArray: an empty array with room for `initCapacity` elements. */
    constructor (initCapacity: nat)
      ensures Valid() && fresh(elems)
      ensures size == 0 && capacity == initCapacity && Elements() == []
    {
      elems := new T[initCapacity];
      size := 0;
      capacity := initCapacity;
    }

    /**
     * insertArrayElement as written: an index past the end is rejected (the source
     * exits); a full buffer doubles its capacity first; the element sequence
     * becomes InsertAsWritten of the old one.
     */
    method InsertArrayElement(element: T, index: nat) returns (ok: bool)
      requires Valid() && capacity > 0
      modifies this, elems
      ensures Valid() && capacity > 0
      ensures ok <==> index <= old(size)
      ensures !ok ==> size == old(size) && capacity == old(capacity) && Elements() == old(Elements())
      ensures ok ==> size == old(size) + 1 && Elements() == InsertAsWritten(old(Elements()), element, index)
      ensures ok ==> capacity == if old(size) == old(capacity) then 2 * old(capacity) else old(capacity)
    {
      if index > size {
        return false;
      }
      if size == capacity {
        Reallocate(2 * capacity);
      }
      ghost var s := elems[..size];
      ShiftRight(index);
      elems[size] := element;
      size := size + 1;
      InsertAsWrittenPointwise(s, element, index, elems[..size]);
      ok := true;
    }

    /**
     * The corrected insertion: the same bounds check, growth and shift, with the
     * element then stored at index, so the sequence becomes InsertAt of the old one.
     */
    method InsertArrayElementAt(element: T, index: nat) returns (ok: bool)
      requires Valid() && capacity > 0
      modifies this, elems
      ensures Valid() && capacity > 0
      ensures ok <==> index <= old(size)
      ensures !ok ==> size == old(size) && capacity == old(capacity) && Elements() == old(Elements())
      ensures ok ==> size == old(size) + 1 && Elements() == InsertAt(old(Elements()), element, index)
      ensures ok ==> capacity == if old(size) == old(capacity) then 2 * old(capacity) else old(capacity)
    {
      if index > size {
        return false;
      }
      if size == capacity {
        Reallocate(2 * capacity);
      }
      ghost var s := elems[..size];
      ShiftRight(index);
      elems[index] := element;
      size := size + 1;
      assert elems[..size] == s[..index] + [element] + s[index..];
      ok := true;
    }

    /**
     * The realloc of insertArrayElement: a buffer of `newCapacity` slots holding
     * the same elements.
     */
    method Reallocate(newCapacity: nat)
      requires Valid() && size <= newCapacity
      modifies this
      ensures Valid() && fresh(elems)
      ensures capacity == newCapacity && size == old(size) && Elements() == old(Elements())
    {
      var grown := new T[newCapacity];
      for i := 0 to size
        modifies grown
        invariant grown[..i] == elems[..i]
      {
        grown[i] := elems[i];
      }
      elems, capacity := grown, newCapacity;
    }

    /**
     * The shift loop of insertArrayElement: from slot size down to slot index+1,
     * each slot takes the element of the slot before it.
     */
    method ShiftRight(index: nat)
      requires Valid() && index <= size < capacity
      modifies elems
      ensures forall j :: 0 <= j <= index ==> elems[j] == old(elems[j])
      ensures forall j :: index < j <= size ==> elems[j] == old(elems[j - 1])
      ensures forall j :: size < j < elems.Length ==> elems[j] == old(elems[j])
    {
      var i := size;
      while i > index
        invariant index <= i <= size
        invariant forall j :: 0 <= j <= i ==> elems[j] == old(elems[j])
        invariant forall j :: i < j <= size ==> elems[j] == old(elems[j - 1])
        invariant forall j :: size < j < elems.Length ==> elems[j] == old(elems[j])
      {
        elems[i] := elems[i - 1];
        i := i - 1;
      }
    }

    /** getArrayElement, for an index below the size (the source returns nothing otherwise). */
    method GetArrayElement(index: nat) returns (e: T)
      requires Valid() && index < size
      ensures e == Elements()[index]
    {
      e := elems[index];
    }

    /** freeArray: the buffer is released, size and capacity drop to 0. */
    method FreeArray()
      requires Valid()
      modifies this
      ensures Valid() && size == 0 && capacity == 0 && Elements() == []
    {
      elems := new T[0];
      size := 0;
      capacity := 0;
    }
  }
}
