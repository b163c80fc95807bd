/** The growable array of data_structures/dynamic_array.h. The storage is
    an array of `capacity` slots of which the first `count` are in use;
    `Reallocate` replaces it by a fresh array twice as large. */
module DynamicArrays {
  import opened Wrappers

  /** The capacity the default constructor allocates. */
  const InitialCapacity: nat := 8

  class DynamicArray<T(0)> {
    var data: array<T>
    var count: nat
    var capacity: nat

    /** The storage invariant: `count <= capacity` and the array has `capacity` slots. */
    ghost predicate Valid()
      reads this
    {
      data.Length == capacity && count <= capacity
    }

    /** The elements in use, in order. */
    ghost function Contents(): seq<T>
      reads this, data
      requires Valid()
    {
      data[..count]
    }

    /** DynamicArray(): empty, with the initial capacity of 8. */
    constructor ()
      ensures Valid() && fresh(data)
      ensures count == 0 && capacity == InitialCapacity && Contents() == []
    {
      data := new T[InitialCapacity];
      count := 0;
      capacity := InitialCapacity;
    }

    /** DynamicArray(capacity): empty, with the given capacity. */
    constructor WithCapacity(capacity: nat)
      ensures Valid() && fresh(data)
      ensures count == 0 && this.capacity == capacity && Contents() == []
    {
      data := new T[capacity];
      count := 0;
      this.capacity := capacity;
    }

    /** DynamicArray(data, count): a copy of the first `count` values, with
        `count` and `capacity` both set to `count`. */
    constructor FromArray(values: array<T>, count: nat)
      requires count <= values.Length
      ensures Valid() && fresh(data)
      ensures this.count == count && capacity == count
      ensures Contents() == values[..count]
    {
      var storage := new T[count];
      for i := 0 to count
        invariant storage[..i] == values[..i]
      {
        storage[i] := values[i];
      }
      data := storage;
      this.count := count;
      capacity := count;
    }

    /** Reallocate: doubles the capacity, moving the elements in use to a
        fresh array; `count` and the contents are unchanged. */
    method Reallocate()
      requires Valid()
      modifies this
      ensures Valid() && fresh(data)
      ensures capacity == 2 * old(capacity) && count == old(count)
      ensures Contents() == old(Contents())
    {
      var storage := new T[2 * capacity];
      for i := 0 to count
        invariant Valid() && unchanged(this)
        invariant storage[..i] == data[..i]
      {
        storage[i] := data[i];
      }
      data := storage;
      capacity := 2 * capacity;
    }

    /** Add(values, n): appends `values[..n]` after the elements in use.
        When they do not fit, the storage is reallocated exactly once, so
        the writes stay in bounds only if `count + n <= 2 * capacity`. */
    method Add(values: array<T>, n: nat)
      requires Valid() && n <= values.Length && values != data
      requires count + n <= 2 * capacity
      modifies this, data
      ensures Valid()
      ensures Contents() == old(Contents()) + values[..n]
      ensures count == old(count) + n
      ensures old(count) + n > old(capacity) ==> capacity == 2 * old(capacity) && fresh(data)
      ensures old(count) + n <= old(capacity) ==> capacity == old(capacity) && data == old(data)
    {
      if count + n > capacity {
        Reallocate();
      }
      ghost var before := data[..count];
      for i := 0 to n
        invariant Valid() && count == old(count) + i && count + (n - i) <= capacity
        invariant data == old(data) || fresh(data)
        invariant old(count) + n > old(capacity) ==> capacity == 2 * old(capacity) && fresh(data)
        invariant old(count) + n <= old(capacity) ==> capacity == old(capacity) && data == old(data)
        invariant data[..count] == before + values[..i]
      {
        data[count] := values[i];
        count := count + 1;
        assert values[..i + 1] == values[..i] + [values[i]];
      }
    }

    /** Raw(): the storage itself. */
    function Raw(): (a: array<T>)
      reads this
      ensures a == data
    {
      data
    }

    /** Count(): the number of elements in use. */
    function Count(): (n: nat)
      reads this, data
      requires Valid()
      ensures n == count && n == |Contents()|
    {
      count
    }

    /** operator[] with its bounds check: the element at `index` when it is
        in use, and an out-of-bounds error otherwise. */
    function At(index: nat): (r: Result<T>)
      reads this, data
      requires Valid()
      ensures r.Ok? <==> index < |Contents()|
      ensures r.Ok? ==> r.value == Contents()[index]
      ensures r.Err? ==> r.error == IndexOutOfBounds
    {
      if index < count then Ok(data[index]) else Err(IndexOutOfBounds)
    }
  }
}
