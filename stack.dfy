/** The array-backed stack of data_structures/stack.h: the first `count`
    slots of the storage hold the elements, the top at `count - 1`. */
module Stacks {
  import opened Wrappers

  /** The capacity the default constructor allocates. */
  const InitialCapacity: nat := 8

  /** Pop as written in stack.h: it reads the slot at `count`, one past the
      top, before decrementing. Over storage `s` holding `count` elements
      it yields that slot and the new count, or an out-of-bounds error when
      the stack is full and there is no such slot. */
  function PopAsWritten<T>(s: seq<T>, count: nat): (r: Result<(T, nat)>)
    requires 0 < count <= |s|
    ensures r.Ok? <==> count < |s|
    ensures r.Ok? ==> r.value == (s[count], count - 1)
  {
    if count < |s| then Ok((s[count], count - 1)) else Err(IndexOutOfBounds)
  }

  /** The slot read as written is never the top: on a full stack it is out
      of bounds, and otherwise it is whatever lies above the top. */
  lemma PopAsWrittenMissesTop()
    ensures PopAsWritten([1, 2], 2) == Err(IndexOutOfBounds)
    ensures PopAsWritten([1, 2, 0], 2).Ok? && PopAsWritten([1, 2, 0], 2).value.0 == 0
    ensures PopAsWritten([1, 2, 0], 2).value.0 != [1, 2, 0][2 - 1]
  {
  }

  /** The fill loop of Stack(initializer_list) and Queue(initializer_list)
      as written, over int values: the storage has one slot per value, all 0
      at first (value-initialised), and the loop writes each value to slot
      `i`, which it never advances. So slot 0 ends up with the last value
      and every other slot stays 0. */
  method InitializerListAsWritten(values: seq<int>) returns (contents: seq<int>)
    ensures |contents| == |values|
    ensures 0 < |values| ==> contents[0] == values[|values| - 1]
    ensures forall k :: 1 <= k < |values| ==> contents[k] == 0
  {
    var storage := new int[|values|](_ => 0);
    var i := 0;
    for n := 0 to |values|
      invariant 0 < n ==> storage[0] == values[n - 1]
      invariant forall k :: 1 <= k < storage.Length ==> storage[k] == 0
    {
      storage[i] := values[n];
    }
    contents := storage[..];
  }

  /** Stack({1, 2, 3}) as written holds 3, 0, 0 where a copy holds 1, 2, 3. */
  method InitializerListExample() returns (contents: seq<int>)
    ensures contents == [3, 0, 0] && contents != [1, 2, 3]
  {
    contents := InitializerListAsWritten([1, 2, 3]);
  }

  class Stack<T(0)> {
    var data: array<T>
    var capacity: nat
    var count: nat

    /** The storage invariant: `count <= capacity`. */
    ghost predicate Valid()
      reads this
    {
      data.Length == capacity && count <= capacity
    }

    /** The elements, bottom first. */
    ghost function Contents(): seq<T>
      reads this, data
      requires Valid()
    {
      data[..count]
    }

    /** Stack(): empty, with the initial capacity of 8. */
    constructor ()
      ensures Valid() && fresh(data)
      ensures capacity == InitialCapacity && Contents() == []
    {
      data := new T[InitialCapacity];
      capacity := InitialCapacity;
      count := 0;
    }

    /** Stack(capacity): empty, with the given capacity. */
    constructor WithCapacity(capacity: nat)
      ensures Valid() && fresh(data)
      ensures this.capacity == capacity && Contents() == []
    {
      data := new T[capacity];
      this.capacity := capacity;
      count := 0;
    }

    /** Stack(data, count): a copy of the first `count` values, the last
        of them on top, with `count` and `capacity` both set to `count`. */
    constructor FromArray(values: array<T>, count: nat)
      requires count <= values.Length
      ensures Valid() && fresh(data)
      ensures this.count == count && capacity == count
      ensures Contents() == values[..count]
    {
      var storage := new T[count];
      for i := 0 to count
        invariant storage[..i] == values[..i]
      {
        storage[i] := values[i];
      }
      data := storage;
      capacity := count;
      this.count := count;
    }

    /** IsFull(): every slot is in use. */
    function IsFull(): (full: bool)
      reads this, data
      requires Valid()
      ensures full <==> |Contents()| == capacity
    {
      count == capacity
    }

    /** IsEmpty(): no slot is in use. */
    function IsEmpty(): (empty: bool)
      reads this, data
      requires Valid()
      ensures empty <==> Contents() == []
    {
      count == 0
    }

    /** Count(): the number of elements. */
    function Count(): (n: nat)
      reads this, data
      requires Valid()
      ensures n == |Contents()|
    {
      count
    }

    /** Push (checked only in debug builds, here a precondition): writes
        `value` at `count` and counts it; the lower slots are unchanged. */
    method Push(value: T)
      requires Valid() && !IsFull()
      modifies this, data
      ensures Valid() && data == old(data) && capacity == old(capacity)
      ensures Contents() == old(Contents()) + [value]
      ensures data[..] == old(data[..])[old(count) := value]
    {
      data[count] := value;
      count := count + 1;
    }

    /** Pop (checked only in debug builds, here a precondition), with the
        intended read of the top slot `count - 1`: returns the element
        pushed last, drops it and writes no slot. */
    method Pop() returns (value: T)
      requires Valid() && !IsEmpty()
      modifies this
      ensures Valid() && data == old(data) && capacity == old(capacity)
      ensures value == old(Contents())[old(count) - 1]
      ensures Contents() == old(Contents())[..old(count) - 1]
      ensures count == old(count) - 1
    {
      count := count - 1;
      value := data[count];
    }
  }

  /** LIFO: push 1, 2, 3 onto Stack(3); popping gives 3, 2, 1. */
  method StackExample() returns (out: seq<int>)
    ensures out == [3, 2, 1]
  {
    var stack := new Stack<int>.WithCapacity(3);
    stack.Push(1);
    stack.Push(2);
    stack.Push(3);
    assert stack.Contents() == [1, 2, 3];
    var x0 := stack.Pop();
    var x1 := stack.Pop();
    var x2 := stack.Pop();
    out := [x0, x1, x2];
  }
}
