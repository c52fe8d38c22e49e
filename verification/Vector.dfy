/** `cu_Vector`: a growing and shrinking array, its contents and its cost. */
module Vectors {
  import opened Nostd
  import opened Options
  import opened Utility

  datatype Error = Invalid | OutOfMemory | OutOfBounds

  /** What the cost of a vector depends on; `moved` counts the elements relocated when
      the buffer was resized. */
  datatype Shape = Shape(length: nat, capacity: nat, moved: nat)

  /** How far the buffer is from half full. */
  function Potential(s: Shape): nat {
    if 2 * s.length >= s.capacity then 2 * s.length - s.capacity else s.capacity - 2 * s.length
  }

  /** Less than a quarter of the buffer is never all that is used. */
  predicate Tight(s: Shape) {
    s.length <= s.capacity && if s.length == 0 then s.capacity == 0 else s.capacity < 4 * s.length
  }

  function Grown(capacity: nat): nat { if capacity == 0 then 1 else capacity * 2 }

  function Pushed(s: Shape): Shape
    requires s.length <= s.capacity
  {
    if s.length >= s.capacity then Shape(s.length + 1, Grown(s.capacity), s.moved + s.length)
    else s.(length := s.length + 1)
  }

  /** The shape after the buffer had its chance to shrink. */
  function Shrunk(s: Shape): Shape {
    if s.length == 0 then s.(capacity := 0)
    else if s.capacity > 1 && s.length <= s.capacity / 4 then Shape(s.length, s.capacity / 2, s.moved + s.length)
    else s
  }

  function Popped(s: Shape): Shape
    requires s.length > 0
  {
    Shrunk(s.(length := s.length - 1))
  }

  /** An operation at either end, with the allocator's answer if it is asked. */
  datatype End = Front | Back

  datatype Op = Push(end: End, granted: bool) | Pop(end: End, granted: bool)

  /** What an operation does to the shape. Popping an empty vector and pushing without
      memory do nothing; without memory nothing shrinks but an empty vector. */
  function Stepped(s: Shape, op: Op): Shape
    requires s.length <= s.capacity
  {
    match op
    case Push(_, granted) => if s.length < s.capacity || granted then Pushed(s) else s
    case Pop(_, granted) =>
      if s.length == 0 then s
      else if granted || s.length == 1 then Popped(s)
      else s.(length := s.length - 1)
  }

  function Run(s: Shape, ops: seq<Op>): (r: Shape)
    requires s.length <= s.capacity
    ensures r.length <= r.capacity
    decreases |ops|
  {
    if ops == [] then s else Run(Stepped(s, ops[0]), ops[1..])
  }

  predicate AllGranted(ops: seq<Op>) {
    forall op :: op in ops ==> op.granted
  }

  /** One operation relocates at most two elements beyond what the potential pays for. */
  lemma StepIsCheap(s: Shape, op: Op)
    requires s.length <= s.capacity
    ensures var r := Stepped(s, op);
      && r.length <= r.capacity && r.moved + Potential(r) <= s.moved + Potential(s) + 2
      && (Tight(s) && op.granted ==> Tight(r))
  {
  }

  /** Every run relocates at most two elements per operation, up to what the initial
      shape had stored up, whatever the allocator answers. As long as it grants
      everything the buffer stays tight. */
  lemma {:induction false} RunIsCheap(s: Shape, ops: seq<Op>)
    requires s.length <= s.capacity
    ensures var r := Run(s, ops);
      && r.moved + Potential(r) <= s.moved + Potential(s) + 2 * |ops|
      && (Tight(s) && AllGranted(ops) ==> Tight(r))
    decreases |ops|
  {
    if ops != [] {
      StepIsCheap(s, ops[0]);
      RunIsCheap(Stepped(s, ops[0]), ops[1..]);
    }
  }

  /** From an empty vector the bound is two relocations per operation. */
  lemma AmortisedBound(ops: seq<Op>)
    ensures Run(Shape(0, 0, 0), ops).moved <= 2 * |ops|
    ensures AllGranted(ops) ==> Tight(Run(Shape(0, 0, 0), ops))
  {
    RunIsCheap(Shape(0, 0, 0), ops);
  }

  class Vector<T(0)> {
    var data: array?<T>
    var length: nat
    var capacity: nat
    ghost var moved: nat

    ghost predicate Valid()
      reads this
    {
      length <= capacity && if data == null then capacity == 0 else data.Length == capacity && capacity > 0
    }

    ghost function Contents(): (c: seq<T>)
      requires Valid()
      reads this, if data == null then {} else {data}
      ensures |c| == length
    {
      if data == null then [] else data[..length]
    }

    ghost function Cost(): Shape
      reads this
    {
      Shape(length, capacity, moved)
    }

    constructor (initial: nat)
      ensures Valid() && Contents() == [] && Cost() == Shape(0, initial, 0) && (data == null || fresh(data))
    {
      length, capacity, moved := 0, initial, 0;
      if initial > 0 {
        data := new T[initial];
      } else {
        data := null;
      }
    }

    /** `cu_Vector_create`: no vector when its first buffer is refused. */
    static method Create(initial: Option<nat>, granted: bool) returns (r: Vector?<T>)
      ensures r == null <==> initial.Some? && initial.value > 0 && !granted
      ensures r != null ==>
        && fresh(r) && (r.data == null || fresh(r.data)) && r.Valid() && r.Contents() == []
        && r.Cost() == Shape(0, if initial.Some? then initial.value else 0, 0)
    {
      var cap := 0;
      if initial.Some? && initial.value > 0 {
        cap := initial.value;
        if !granted {
          return null;
        }
      }
      r := new Vector(cap);
    }

    /** Moves the elements to a buffer of the given capacity. `granted` is the
        allocator's answer if it is asked. */
    method SetCapacity(cap: nat, granted: bool) returns (e: Option<Error>)
      requires Valid()
      modifies this
      ensures Valid() && (data == old(data) || data == null || fresh(data))
      ensures cap == 0 && old(capacity) > 0 ==> e == None && Contents() == [] && Cost() == Shape(0, 0, old(moved))
      ensures cap > 0 && cap < length ==> e == Some(Invalid)
      ensures cap >= length && cap > 0 && cap != old(capacity) ==> e == if granted then None else Some(OutOfMemory)
      ensures cap > 0 || old(capacity) == 0 ==> Contents() == old(Contents())
      ensures cap == old(capacity) ==> e == None
      ensures e.Some? || cap == old(capacity) ==> Cost() == old(Cost()) && data == old(data)
      ensures e.None? && cap > 0 && cap != old(capacity) ==> Cost() == Shape(old(length), cap, old(moved) + old(length))
    {
      if cap == capacity {
        return None;
      }
      if cap == 0 {
        Destroy();
        return None;
      }
      if cap < length {
        return Some(Invalid);
      }
      if !granted {
        return Some(OutOfMemory);
      }
      var grown := new T[cap];
      if data != null {
        CopyTo(grown, data, length);
        moved := moved + length;
      }
      data, capacity := grown, cap;
      e := None;
    }

    method Reserve(cap: nat, granted: bool) returns (e: Option<Error>)
      requires Valid()
      modifies this
      ensures Valid() && Contents() == old(Contents()) && (data == old(data) || fresh(data))
      ensures e == if cap <= old(capacity) || granted then None else Some(OutOfMemory)
      ensures Cost() ==
        if cap <= old(capacity) || !granted then old(Cost()) else Shape(old(length), cap, old(moved) + old(length))
      ensures cap <= old(capacity) || !granted ==> data == old(data)
    {
      if cap <= capacity {
        return None;
      }
      e := SetCapacity(cap, granted);
    }

    /** Changes the length; elements beyond the old length are whatever the buffer
        holds. */
    method Resize(size: nat, granted: bool) returns (e: Option<Error>)
      requires Valid()
      modifies this
      ensures Valid() && (data == old(data) || fresh(data))
      ensures e == if size <= old(capacity) || granted then None else Some(OutOfMemory)
      ensures e.Some? ==> Contents() == old(Contents())
      ensures e.None? ==> length == size
      ensures e.None? && size >= old(length) ==> Contents()[..old(length)] == old(Contents())
      ensures e.None? && size < old(length) ==> Contents() == old(Contents())[..size]
    {
      if size > capacity {
        e := SetCapacity(size, granted);
        if e.Some? {
          return;
        }
      }
      length := size;
      e := None;
    }

    method PushBack(elem: T, granted: bool) returns (e: Option<Error>)
      requires Valid()
      modifies this, if data == null then {} else {data}
      ensures Valid() && (data == old(data) || fresh(data))
      ensures e == if old(length) < old(capacity) || granted then None else Some(OutOfMemory)
      ensures Contents() == if e.None? then old(Contents()) + [elem] else old(Contents())
      ensures Cost() == Stepped(old(Cost()), Push(Back, granted))
    {
      if length >= capacity {
        var newCap := if capacity == 0 then 1 else capacity * 2;
        e := Reserve(newCap, granted);
        if e.Some? {
          return;
        }
      }
      data[length] := elem;
      length := length + 1;
      e := None;
    }

    /** The part of the elements from `index` on, at most `count` of them; there is none
        without a buffer. It lies within the elements exactly when the sum of the two
        fits in a word: the clipping looks at the sum after it wrapped around. */
    method Subslice(index: nat, count: nat) returns (r: Option<(nat, nat)>)
      requires Valid() && index < WORD_LIMIT && count < WORD_LIMIT && length < WORD_LIMIT
      ensures r.None? <==> data == null || index > length
      ensures r.Some? ==> r.value.0 == index && (index + r.value.1 <= length <==> index + count < WORD_LIMIT)
      ensures r.Some? ==> r.value.1 == if index + count < WORD_LIMIT then Min(count, length - index) else count
    {
      if data == null || index > length {
        return None;
      }
      var n := count;
      WrapAround(index, count);
      if (index + n) % WORD_LIMIT > length {
        n := length - index;
      }
      r := Some((index, n));
    }

    method Destroy()
      requires Valid()
      modifies this
      ensures Valid() && Contents() == [] && data == null && Cost() == Shape(0, 0, old(moved))
    {
      data, length, capacity := null, 0, 0;
    }

    method MaybeShrink(granted: bool)
      requires Valid()
      modifies this
      ensures Valid() && Contents() == old(Contents()) && (data == old(data) || data == null || fresh(data))
      ensures Cost() == if granted || length == 0 then Shrunk(old(Cost())) else old(Cost())
    {
      if length == 0 {
        var e := SetCapacity(length, granted);
        return;
      }
      if capacity > 1 && length <= capacity / 4 {
        var newCap := if capacity / 2 > 1 then capacity / 2 else 1;
        var e := SetCapacity(newCap, granted);
      }
    }

    method PopBack(granted: bool) returns (e: Option<Error>, elem: Option<T>)
      requires Valid()
      modifies this
      ensures Valid() && (data == old(data) || data == null || fresh(data))
      ensures e == if old(length) == 0 then Some(OutOfBounds) else None
      ensures e.Some? ==> Contents() == old(Contents()) && elem == None
      ensures e.None? ==>
        Contents() == old(Contents())[..old(length) - 1] && elem == Some(old(Contents())[old(length) - 1])
      ensures Cost() == Stepped(old(Cost()), Pop(Back, granted))
    {
      if length == 0 {
        return Some(OutOfBounds), None;
      }
      length := length - 1;
      e, elem := None, Some(data[length]);
      MaybeShrink(granted);
    }

    method PushFront(elem: T, granted: bool) returns (e: Option<Error>)
      requires Valid()
      modifies this, if data == null then {} else {data}
      ensures Valid() && (data == old(data) || fresh(data))
      ensures e == if old(length) < old(capacity) || granted then None else Some(OutOfMemory)
      ensures Contents() == if e.None? then [elem] + old(Contents()) else old(Contents())
      ensures Cost() == Stepped(old(Cost()), Push(Front, granted))
    {
      if length >= capacity {
        var newCap := if capacity == 0 then 1 else capacity * 2;
        e := Reserve(newCap, granted);
        if e.Some? {
          return;
        }
      }
      Memmove(data, 1, 0, length);
      data[0] := elem;
      length := length + 1;
      e := None;
    }

    /** Hands out the first element. What is left is the rest of the vector exactly
        when all its elements were equal: the elements are shifted away from the front,
        so the first one stays and the last two are lost. */
    method PopFront(granted: bool) returns (e: Option<Error>, elem: Option<T>)
      requires Valid()
      modifies this, if data == null then {} else {data}
      ensures Valid() && (data == old(data) || data == null || fresh(data))
      ensures e == if old(length) == 0 then Some(OutOfBounds) else None
      ensures e.Some? ==> Contents() == old(Contents()) && elem == None
      ensures e.None? ==> elem == Some(old(Contents())[0]) && Contents() == FrontPopped(old(Contents()))
      ensures e.None? ==>
        forall i :: 0 <= i < length ==> Contents()[i] == old(Contents())[if i == 0 then 0 else i - 1]
      ensures e.None? ==> (Contents() == old(Contents())[1..] <==> AllEqual(old(Contents())))
      ensures Cost() == Stepped(old(Cost()), Pop(Front, granted))
    {
      if length == 0 {
        return Some(OutOfBounds), None;
      }
      ghost var c := Contents();
      e, elem := None, Some(data[0]);
      Memmove(data, 1, 0, length - 1);
      length := length - 1;
      assert Contents() == FrontPopped(c);
      MaybeShrink(granted);
      PoppedIsTail(c);
    }
  }

  lemma WrapAround(a: nat, b: nat)
    requires a < WORD_LIMIT && b < WORD_LIMIT
    ensures (a + b) % WORD_LIMIT == if a + b < WORD_LIMIT then a + b else a + b - WORD_LIMIT
  {
  }

  predicate AllEqual<T(==)>(c: seq<T>) {
    forall i :: 0 <= i < |c| ==> c[i] == c[0]
  }

  /** The first element followed by all but the last two. */
  function FrontPopped<T>(c: seq<T>): seq<T>
    requires c != []
  {
    if |c| == 1 then [] else [c[0]] + c[..|c| - 2]
  }

  lemma PoppedIsTail<T>(c: seq<T>)
    requires c != []
    ensures FrontPopped(c) == c[1..] <==> AllEqual(c)
  {
    var f, t := FrontPopped(c), c[1..];
    if f == t {
      forall i | 0 <= i < |c| ensures c[i] == c[0] { ShiftedIsConstant(c, i); }
    }
  }

  lemma {:induction false} ShiftedIsConstant<T>(c: seq<T>, i: nat)
    requires c != [] && FrontPopped(c) == c[1..] && i < |c|
    ensures c[i] == c[0]
    decreases i
  {
    if i == 1 {
      assert FrontPopped(c)[0] == c[1..][0];
    } else if i > 1 {
      assert FrontPopped(c)[i - 1] == c[1..][i - 1];
      ShiftedIsConstant(c, i - 2);
    }
  }

  method CopyTo<T>(dst: array<T>, src: array<T>, n: nat)
    requires n <= src.Length && n <= dst.Length && dst != src
    modifies dst
    ensures dst[..n] == src[..n]
  {
    for i := 0 to n
      invariant dst[..i] == src[..i]
    {
      dst[i] := src[i];
    }
  }
}
