/** The ring-buffer queue of data_structures/queue.h. The elements in use
    start at `front` and wrap around the end of the storage; `back` is the
    slot the next `Enqueue` writes. */
module Queues {
  import opened Utilities

  /** The capacity the default constructor allocates. */
  const InitialCapacity: nat := 8

  /** Reduction modulo `n` of an index below `2 * n`: at most one wrap. */
  lemma ModOnce(x: nat, n: nat)
    requires 0 < n && x < 2 * n
    ensures x % n == if x < n then x else x - n
  {
    if x >= n {
      assert x == (x - n) + n;
    }
  }

  /** The `count` elements of the ring `s` that start at `front`, oldest first. */
  function Ring<T>(s: seq<T>, front: nat, count: nat): (r: seq<T>)
    requires front < |s| && count <= |s|
    ensures |r| == count
  {
    seq(count, i requires 0 <= i < count => s[(front + i) % |s|])
  }

  /** A full ring that starts at slot 0 is the storage itself, and its
      back slot is slot 0 again. */
  lemma RingWhole<T>(s: seq<T>)
    requires 0 < |s|
    ensures Ring(s, 0, |s|) == s
    ensures (0 + |s|) % |s| == 0
  {
    ModOnce(|s|, |s|);
    forall i | 0 <= i < |s|
      ensures Ring(s, 0, |s|)[i] == s[i]
    {
      ModOnce(i, |s|);
    }
  }

  /** Writing `v` at the back slot, which turns `s` into `t`, appends `v`
      to the ring, the oldest element stays in front, and the slot after
      `back` is the new back slot. */
  lemma RingEnqueue<T>(s: seq<T>, t: seq<T>, front: nat, count: nat, back: nat, v: T)
    requires front < |s| && count < |s| && back == (front + count) % |s| && t == s[back := v]
    ensures Ring(t, front, count + 1) == Ring(s, front, count) + [v]
    ensures (back + 1) % |s| == (front + count + 1) % |s|
  {
    var n := |s|;
    ModOnce(front + count, n);
    ModOnce(back + 1, n);
    ModOnce(front + count + 1, n);
    forall i | 0 <= i < count
      ensures Ring(t, front, count + 1)[i] == Ring(s, front, count)[i]
    {
      ModOnce(front + i, n);
    }
  }

  /** Taking the front element, which moves the front to `front'`, leaves
      the rest of the ring, and the back slot stays where it is. */
  lemma RingDequeue<T>(s: seq<T>, front: nat, count: nat, front': nat, back: nat)
    requires front < |s| && 0 < count <= |s| && back == (front + count) % |s|
    requires front' == (front + 1) % |s|
    ensures front' < |s| && Ring(s, front, count)[0] == s[front]
    ensures Ring(s, front, count)[1..] == Ring(s, front', count - 1)
    ensures back == (front' + (count - 1)) % |s|
  {
    var n := |s|;
    ModOnce(front, n);
    ModOnce(front + 1, n);
    ModOnce(front + count, n);
    ModOnce(front' + count - 1, n);
    forall i | 0 <= i < count - 1
      ensures Ring(s, front, count)[1..][i] == Ring(s, front', count - 1)[i]
    {
      ModOnce(front + i + 1, n);
      ModOnce(front' + i, n);
    }
  }

  class Queue<T(0)> {
    var data: array<T>
    var capacity: nat
    var count: nat
    var front: nat
    var back: nat

    /** The ring invariant: `count <= capacity`, `front` is a slot, and
        `back == (front + count) % capacity`. A queue of capacity 0 is both
        empty and full. */
    ghost predicate Valid()
      reads this
    {
      data.Length == capacity && count <= capacity &&
      (capacity == 0 ==> front == 0 && back == 0) &&
      (capacity > 0 ==> front < capacity && back == (front + count) % capacity)
    }

    /** The elements in the queue, oldest first. */
    ghost function Contents(): seq<T>
      reads this, data
      requires Valid()
    {
      if capacity == 0 then [] else Ring(data[..], front, count)
    }

    /** Queue(): empty, with the initial capacity of 8. */
    constructor ()
      ensures Valid() && fresh(data)
      ensures capacity == InitialCapacity && Contents() == []
      ensures front == 0 && back == 0
    {
      data := new T[InitialCapacity];
      capacity := InitialCapacity;
      count := 0;
      front := 0;
      back := 0;
    }

    /** Queue(capacity): empty, with the given capacity. */
    constructor WithCapacity(capacity: nat)
      ensures Valid() && fresh(data)
      ensures this.capacity == capacity && Contents() == []
      ensures front == 0 && back == 0
    {
      data := new T[capacity];
      this.capacity := capacity;
      count := 0;
      front := 0;
      back := 0;
    }

    /** Queue(data, count) as evidently intended: a full queue holding a
        copy of the first `count` values, oldest first, whose `back` is slot
        0, the slot after the last one. The source sets `back` to
        `count - 1` instead (see BackAsWritten). */
    constructor FromArray(values: array<T>, count: nat)
      requires count <= values.Length
      ensures Valid() && fresh(data)
      ensures capacity == count && Contents() == values[..count]
      ensures front == 0 && back == 0
    {
      var storage := new T[count];
      for i := 0 to count
        invariant storage[..i] == values[..i]
      {
        storage[i] := values[i];
      }
      if count > 0 {
        RingWhole(storage[..]);
      }
      data := storage;
      capacity := count;
      this.count := count;
      front := 0;
      back := 0;
    }

    /** IsFull(): every slot is in use. */
    function IsFull(): (full: bool)
      reads this, data
      requires Valid()
      ensures full <==> |Contents()| == capacity
    {
      count == capacity
    }

    /** IsEmpty(): no slot is in use. */
    function IsEmpty(): (empty: bool)
      reads this, data
      requires Valid()
      ensures empty <==> Contents() == []
    {
      count == 0
    }

    /** Count(): the number of elements in the queue. */
    function Count(): (n: nat)
      reads this, data
      requires Valid()
      ensures n == |Contents()|
    {
      count
    }

    /** Enqueue (checked only in debug builds, here a precondition): writes
        `value` at `back`, advances `back` around the ring and counts it. */
    method Enqueue(value: T)
      requires Valid() && !IsFull()
      modifies this, data
      ensures Valid() && data == old(data) && capacity == old(capacity)
      ensures Contents() == old(Contents()) + [value]
      ensures data[..] == old(data[..])[old(back) := value]
      ensures front == old(front) && back == (old(back) + 1) % capacity && count == old(count) + 1
    {
      ghost var s := data[..];
      data[back] := value;
      RingEnqueue(s, data[..], front, count, back, value);
      back := (back + 1) % capacity;
      count := count + 1;
    }

    /** Dequeue (checked only in debug builds, here a precondition): returns
        the element at `front`, the oldest, and advances `front`. */
    method Dequeue() returns (value: T)
      requires Valid() && !IsEmpty()
      modifies this
      ensures Valid() && data == old(data) && capacity == old(capacity)
      ensures value == old(Contents())[0]
      ensures Contents() == old(Contents())[1..]
      ensures front == (old(front) + 1) % capacity && back == old(back) && count == old(count) - 1
    {
      var front' := (front + 1) % capacity;
      RingDequeue(data[..], front, count, front', back);
      value := data[front];
      front := front';
      count := count - 1;
    }
  }

  /** The `back` that Queue(data, count) and Queue(initializer_list) set,
      as written: `count - 1` in `size_t` arithmetic, which wraps around to
      the largest `size_t` for an empty copy. */
  function BackAsWritten(count: nat): (back: nat)
    requires count < SizeTModulus
    ensures 0 < count ==> back == count - 1
    ensures count == 0 ==> back == SizeTModulus - 1
  {
    SizeTSub(count, 1)
  }

  /** The ring invariant wants `back` at slot 0 of a full copy (and of an
      empty one); the `back` as written is there only for one element. */
  lemma BackAsWrittenValidIff(count: nat)
    requires count < SizeTModulus
    ensures BackAsWritten(count) == 0 <==> count == 1
  {
  }

  /** What that does: a copy of [5, 6] has `back` at 1; after one Dequeue
      (front 1, one element) Enqueue(7) writes slot 1, over the 6 still in
      the queue, and the queue reads 7, 5. With `back` at 0 the same calls
      leave 6, 7. */
  lemma BackAsWrittenOverwrites()
    ensures BackAsWritten(2) == 1
    ensures Ring([5, 6][BackAsWritten(2) := 7], 1, 2) == [7, 5]
    ensures Ring([5, 6][0 := 7], 1, 2) == [6, 7]
  {
  }

  /** The same calls on the intended Queue(data, count): copy [5, 6],
      dequeue, enqueue 7, dequeue twice. */
  method FromArrayExample() returns (out: seq<int>)
    ensures out == [5, 6, 7]
  {
    var values := new int[2];
    values[0], values[1] := 5, 6;
    var queue := new Queue<int>.FromArray(values, 2);
    assert queue.Contents() == [5, 6];
    var x0 := queue.Dequeue();
    queue.Enqueue(7);
    assert queue.Contents() == [6, 7];
    var x1 := queue.Dequeue();
    var x2 := queue.Dequeue();
    out := [x0, x1, x2];
  }

  /** The first half of the example in queue.cpp: capacity 5; enqueue 0,
      1, 2, 3; dequeue twice. */
  method QueueExampleStart() returns (queue: Queue<int>, x0: int, x1: int)
    ensures fresh(queue) && fresh(queue.data)
    ensures queue.Valid() && queue.capacity == 5 && queue.Contents() == [2, 3]
    ensures x0 == 0 && x1 == 1
  {
    queue := new Queue<int>.WithCapacity(5);
    queue.Enqueue(0);
    queue.Enqueue(1);
    queue.Enqueue(2);
    queue.Enqueue(3);
    assert queue.Contents() == [0, 1, 2, 3];
    x0 := queue.Dequeue();
    assert queue.Contents() == [1, 2, 3];
    x1 := queue.Dequeue();
  }

  /** The example in queue.cpp: after the first half, enqueue 4 and 0,
      which wraps around the end of the storage, then dequeue four times. */
  method QueueExample() returns (out: seq<int>)
    ensures out == [0, 1, 2, 3, 4, 0]
  {
    var queue, x0, x1 := QueueExampleStart();
    queue.Enqueue(4);
    queue.Enqueue(0);
    assert queue.Contents() == [2, 3, 4, 0];
    var x2 := queue.Dequeue();
    assert queue.Contents() == [3, 4, 0];
    var x3 := queue.Dequeue();
    assert queue.Contents() == [4, 0];
    var x4 := queue.Dequeue();
    var x5 := queue.Dequeue();
    out := [x0, x1, x2, x3, x4, x5];
  }
}
