/** `cu_RingBuffer`: a queue of bounded size over storage used in a circle. */
module RingBuffers {
  import opened Options

  datatype Error = Empty | Full

  /** The storage index of element `i` when the first stands at `head`. */
  function Index(head: nat, i: nat, capacity: nat): (k: nat)
    requires head < capacity && i <= capacity
    ensures k < capacity
  {
    if head + i < capacity then head + i else head + i - capacity
  }

  /** It is the sum modulo the capacity. */
  lemma IndexIsModulo(head: nat, i: nat, capacity: nat)
    requires head < capacity && i <= capacity
    ensures Index(head, i, capacity) == (head + i) % capacity
  {
  }

  /** No two elements share a place. */
  lemma IndexInjective(head: nat, i: nat, j: nat, capacity: nat)
    requires head < capacity && i < capacity && j < capacity && i != j
    ensures Index(head, i, capacity) != Index(head, j, capacity)
  {
  }

  class RingBuffer<T(0)> {
    const data: array<T>
    const capacity: nat
    var head: nat
    var length: nat

    ghost predicate Valid()
      reads this
    {
      data.Length == capacity && length <= capacity && (if capacity > 0 then head < capacity else head == 0)
    }

    /** The queue, oldest element first. */
    ghost function Contents(): (c: seq<T>)
      requires Valid()
      reads this, data
      ensures |c| == length
    {
      seq(length, i requires 0 <= i < length && Valid() reads this, data => data[Index(head, i, capacity)])
    }

    constructor (capacity: nat)
      ensures Valid() && Contents() == [] && this.capacity == capacity && fresh(data)
    {
      this.capacity := capacity;
      data := new T[capacity];
      head, length := 0, 0;
    }

    /** `cu_RingBuffer_create`: no buffer when its storage is refused. */
    static method Create(capacity: nat, granted: bool) returns (r: RingBuffer?<T>)
      ensures r == null <==> capacity > 0 && !granted
      ensures r != null ==>
        fresh(r) && fresh(r.data) && r.Valid() && r.Contents() == [] && r.capacity == capacity
    {
      if capacity > 0 && !granted {
        return null;
      }
      r := new RingBuffer(capacity);
    }

    predicate IsEmpty()
      reads this
    {
      length == 0
    }

    predicate IsFull()
      reads this
    {
      length == capacity && capacity > 0
    }

    /** A buffer without room is not full; pushing to it divides by zero. */
    method Push(elem: T) returns (e: Option<Error>)
      requires Valid() && capacity > 0
      modifies this, data
      ensures Valid()
      ensures e == if old(length) == capacity then Some(Full) else None
      ensures Contents() == if e.None? then old(Contents()) + [elem] else old(Contents())
    {
      if IsFull() {
        return Some(Full);
      }
      IndexIsModulo(head, length, capacity);
      var tail := (head + length) % capacity;
      forall i | 0 <= i < length ensures Index(head, i, capacity) != tail { IndexInjective(head, i, length, capacity); }
      data[tail] := elem;
      length := length + 1;
      e := None;
    }

    method Pop() returns (e: Option<Error>, elem: Option<T>)
      requires Valid()
      modifies this
      ensures Valid()
      ensures e == if old(length) == 0 then Some(Empty) else None
      ensures e.Some? ==> Contents() == old(Contents()) && elem == None
      ensures e.None? ==> elem.Some? && old(Contents()) == [elem.value] + Contents()
    {
      if IsEmpty() {
        return Some(Empty), None;
      }
      elem := Some(data[head]);
      IndexIsModulo(head, 1, capacity);
      ghost var c := Contents();
      head := (head + 1) % capacity;
      length := length - 1;
      forall i | 0 <= i < length ensures Contents()[i] == c[i + 1] { NextIndex(old(head), i, capacity); }
      assert c == [c[0]] + Contents();
      e := None;
    }

    method Clear()
      requires Valid()
      modifies this
      ensures Valid() && Contents() == []
    {
      head, length := 0, 0;
    }
  }

  lemma NextIndex(head: nat, i: nat, capacity: nat)
    requires head < capacity && i < capacity
    ensures Index(Index(head, 1, capacity), i, capacity) == Index(head, i + 1, capacity)
  {
  }
}
