/**
 * The growable array of neet/array.cpp: `size` elements at the front of a
 * buffer of `capacity` slots, doubling the buffer when a push finds it full.
 */
module Growable {

  class DynamicArray<T(0)> {
    var buff: array<T>
    var size: nat
    var capacity: nat

    ghost predicate Valid()
      reads this
    {
      buff.Length == capacity && size <= capacity
    }

    /** The stored elements, in order. */
    function Elements(): (r: seq<T>)
      reads this, buff
      requires Valid()
      ensures |r| == size
    {
      buff[..size]
    }

    /**
     * `check(i)`: whether `0 <= i <= capacity`. It admits `i == capacity`,
     * one past the last slot; `get` and `set` ignore its answer anyway.
     */
    function Check(i: int): (r: bool)
      reads this
      ensures r <==> 0 <= i <= capacity
    {
      !(i > capacity || i < 0)
    }

    /** The bound `check` evidently intends: exactly the indices of the buffer. */
    function InBounds(i: int): (r: bool)
      reads this, buff
      requires Valid()
      ensures r <==> 0 <= i < buff.Length
    {
      0 <= i < capacity
    }

    /** `DynamicArray(capacity)`: no elements and `capacity` slots. */
    constructor (cap: nat)
      ensures Valid() && fresh(buff)
      ensures size == 0 && capacity == cap && Elements() == []
    {
      buff := new T[cap];
      size := 0;
      capacity := cap;
    }

    /** `resize`: doubles the capacity and copies the elements into a new buffer. */
    method Resize()
      requires Valid()
      modifies this
      ensures Valid() && fresh(buff)
      ensures capacity == 2 * old(capacity) && size == old(size)
      ensures Elements() == old(Elements())
    {
      capacity := capacity * 2;
      var newBuff := new T[capacity];
      for i := 0 to size
        modifies newBuff
        invariant newBuff[..i] == buff[..i]
      {
        newBuff[i] := buff[i];
      }
      buff := newBuff;
    }

    /** `get(i)`: slot `i`, which may lie past the elements; the buffer bound is the caller's to keep. */
    method Get(i: int) returns (r: T)
      requires Valid() && InBounds(i)
      ensures r == buff[i]
      ensures i < size ==> r == Elements()[i]
    {
      var _ := Check(i);
      r := buff[i];
    }

    /** `set(i, n)`: writes slot `i`; an element at `i`, if any, becomes `n`. */
    method Set(i: int, n: T)
      requires Valid() && InBounds(i)
      modifies buff
      ensures Valid() && buff[i] == n
      ensures forall k :: 0 <= k < capacity && k != i ==> buff[k] == old(buff[k])
      ensures i < size ==> Elements() == old(Elements())[i := n]
      ensures i >= size ==> Elements() == old(Elements())
    {
      var _ := Check(i);
      buff[i] := n;
    }

    /**
     * `pushback(n)`: appends `n`, doubling the capacity first when full. A
     * zero capacity stays zero when doubled, so the source writes past the
     * buffer there.
     */
    method PushBack(n: T)
      requires Valid() && capacity > 0
      modifies this, buff
      ensures Valid() && (buff == old(buff) || fresh(buff))
      ensures Elements() == old(Elements()) + [n]
      ensures capacity == if old(size) == old(capacity) then 2 * old(capacity) else old(capacity)
    {
      if size == capacity {
        Resize();
      }
      buff[size] := n;
      var _ := Check(size);
      size := size + 1;
    }

    /**
     * `popBack`: removes and returns the last element; on an empty array the
     * size stays 0 and slot 0 is returned.
     */
    method PopBack() returns (r: T)
      requires Valid() && (size > 0 || capacity > 0)
      modifies this
      ensures Valid() && buff == old(buff) && capacity == old(capacity)
      ensures old(size) > 0 ==> r == old(Elements())[old(size) - 1] && Elements() == old(Elements())[..old(size) - 1]
      ensures old(size) == 0 ==> r == buff[0] && size == 0
    {
      if size > 0 {
        size := size - 1;
      }
      r := buff[size];
    }

    /** `getSize`: the number of elements. */
    function GetSize(): (r: nat)
      reads this, buff
      requires Valid()
      ensures r == |Elements()|
    {
      size
    }

    /** `getCapacity`: the number of slots. */
    function GetCapacity(): (r: nat)
      reads this, buff
      requires Valid()
      ensures r == buff.Length && r >= GetSize()
    {
      capacity
    }
  }

  /** `check` lets the index one past the last slot through. */
  lemma CheckAdmitsEnd<T(0)>(a: DynamicArray<T>)
    requires a.Valid()
    ensures a.Check(a.capacity) && !a.InBounds(a.capacity)
    ensures forall i :: a.InBounds(i) ==> a.Check(i)
  {
  }

  /** Pushes beyond the initial capacity keep every element, doubling the capacity once. */
  method GrowDemo() returns (elements: seq<int>, capacity: nat, last: int)
    ensures elements == [1, 2, 3] && capacity == 4 && last == 3
  {
    var a := new DynamicArray<int>(2);
    a.PushBack(1);
    a.PushBack(2);
    a.PushBack(3);
    elements, capacity := a.Elements(), a.GetCapacity();
    last := a.PopBack();
  }
}
