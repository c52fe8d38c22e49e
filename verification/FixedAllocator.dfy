/** `cu_FixedAllocator`: a stack of blocks in one caller-supplied buffer. */
module FixedAllocators {
  import opened Allocation
  import opened Slices
  import opened Options
  import opened Utility
  import opened Memory
  import opened Blocks

  const HEADER: nat := 8

  /** Header words hold the boundary as it was before the block. */
  ghost predicate HeadersIntact(m: seq<Cell<nat>>, live: set<Block>) {
    forall b :: b in live ==> b.start >= HEADER && HoldsWord(m, b.start - HEADER, HEADER, b.prev)
  }

  class FixedAllocator {
    const buffer: array<Cell<nat>>
    var used: nat
    // The blocks handed out and not yet given back.
    ghost var live: set<Block>

    ghost predicate Valid()
      reads this, buffer
    {
      && used <= buffer.Length
      && Owned(HEADER, live, used)
      && HeadersIntact(buffer[..], live)
    }

    constructor (buffer: array<Cell<nat>>)
      ensures Valid() && this.buffer == buffer && used == 0 && live == {}
    {
      this.buffer := buffer;
      used := 0;
      live := {};
    }

    /** No byte owned by a block in `s` differs from the old state. */
    twostate predicate Untouched(s: set<Block>)
      reads this, buffer
    {
      forall b :: b in s ==> SameOn(old(buffer[..]), buffer[..], b.prev, b.End())
    }

    method Alloc(size: nat, alignment: nat) returns (r: Result)
      requires Valid()
      requires alignment > 0 ==> IsPow2(alignment)
      modifies this, buffer
      ensures Valid() && Untouched(old(live))
      ensures r == AllocSpec(old(used), buffer.Length, size, alignment)
      ensures r.Err? ==> used == old(used) && live == old(live)
      ensures r.Ok? ==> var b := Block(old(used), r.slice.ptr, size);
        b !in old(live) && live == old(live) + {b} && used == b.End() && r.slice == Slice(b.start, b.len)
    {
      if size == 0 {
        return Err(InvalidInput);
      }
      var align := if alignment == 0 then 1 else alignment;
      var reqAlign := Max(align, HEADER);
      assert IsPow2(8);
      PlaceIsTight(HEADER, used, reqAlign);
      var start := AlignUp(used + HEADER, reqAlign);
      if start + size > buffer.Length {
        return Err(OutOfMemory);
      }
      StoreWord(buffer, start - HEADER, HEADER, used);
      ghost var b := Block(used, start, size);
      PushKeepsOwned(HEADER, live, used, b);
      live := live + {b};
      used := start + size;
      r := Ok(Slice(start, size));
    }

    method Grow(mem: Option<Slice>, size: nat, alignment: nat, ghost b: Block) returns (r: Result)
      requires Valid()
      requires alignment > 0 ==> IsPow2(alignment)
      requires mem.Some? ==> b in live && mem.value == Slice(b.start, b.len)
      modifies this, buffer
      ensures Valid() && Untouched(old(live) - (if mem.Some? then {b} else {}))
      ensures r.Err? ==> live == old(live) && used == old(used) && Untouched(old(live))
      ensures mem.None? ==> r == AllocSpec(old(used), buffer.Length, size, alignment)
      ensures mem.None? && r.Ok? ==> var n := Block(old(used), r.slice.ptr, size);
        live == old(live) + {n} && used == n.End() && r.slice == Slice(n.start, n.len)
      // The topmost block grows where it is whenever the buffer has room.
      ensures mem.Some? && b.End() == old(used) && b.start + size <= buffer.Length ==>
        && r == Ok(Slice(b.start, size))
        && live == old(live) - {b} + {b.(len := size)} && used == b.start + size
      // Otherwise a new block takes over its contents.
      ensures mem.Some? && !(b.End() == old(used) && b.start + size <= buffer.Length) ==>
        r == AllocSpec(old(used), buffer.Length, size, alignment)
        && (r.Ok? ==> var n := Block(old(used), r.slice.ptr, size);
             live == old(live) - {b} + {n} && used == n.End() && r.slice == Slice(n.start, n.len))
      ensures mem.Some? && r.Ok? ==>
        CopiedTo(old(buffer[..]), b.start, buffer[..], r.slice.ptr, Min(b.len, size))
    {
      if mem.None? {
        r := Alloc(size, alignment);
        return;
      }
      var oldMem := mem.value;
      if oldMem.ptr + oldMem.len == used {
        var avail := buffer.Length - used;
        if size <= oldMem.len + avail {
          ResizeTopKeepsOwned(HEADER, live, used, b, size);
          used := (used - oldMem.len) + size;
          live := live - {b} + {b.(len := size)};
          return Ok(Slice(oldMem.ptr, size));
        }
      }
      r := MoveTo(oldMem, size, alignment, b);
      if r.Ok? && oldMem.ptr + oldMem.len == used {
        // The new block lies above the old one, so the old one cannot be popped.
        assert false;
      }
    }

    /** The common fallback of growing and shrinking: a new block with the old
        contents, copied as far as both reach. */
    method MoveTo(mem: Slice, size: nat, alignment: nat, ghost b: Block) returns (r: Result)
      requires Valid() && b in live && mem == Slice(b.start, b.len)
      requires alignment > 0 ==> IsPow2(alignment)
      modifies this, buffer
      ensures Valid() && Untouched(old(live))
      ensures r == AllocSpec(old(used), buffer.Length, size, alignment)
      ensures r.Err? ==> live == old(live) && used == old(used)
      ensures r.Ok? ==> var n := Block(old(used), r.slice.ptr, size);
        live == old(live) - {b} + {n} && used == n.End() && b.End() < used && r.slice == Slice(n.start, n.len)
      ensures r.Ok? ==> CopiedTo(old(buffer[..]), b.start, buffer[..], r.slice.ptr, Min(b.len, size))
    {
      r := Alloc(size, alignment);
      if r.Err? {
        return;
      }
      ghost var n := Block(old(used), r.slice.ptr, size);
      ghost var m := buffer[..];
      Copy(buffer, r.slice.ptr, buffer, mem.ptr, Min(mem.len, size));
      UserBytesAreSafe(m, buffer[..], live, used, n);
      live := live - {b};
    }

    /** The topmost block takes any size unchecked, which only leaves the boundary in the
        buffer when the block still ends there. */
    method Shrink(mem: Option<Slice>, size: nat, alignment: nat, ghost b: Block) returns (r: Result)
      requires Valid()
      requires alignment > 0 ==> IsPow2(alignment)
      requires mem.Some? ==> b in live && mem.value == Slice(b.start, b.len)
      modifies this, buffer
      ensures Valid() <==> mem.None? || b.End() != old(used) || b.start + size <= buffer.Length
      ensures Untouched(old(live) - (if mem.Some? then {b} else {}))
      ensures r.Err? ==> live == old(live) && used == old(used) && Untouched(old(live))
      ensures mem.None? ==> r == Err(InvalidInput)
      ensures mem.Some? && b.End() == old(used) ==>
        && r == Ok(Slice(b.start, size))
        && live == old(live) - {b} + {b.(len := size)} && used == b.start + size
      ensures mem.Some? && b.End() != old(used) ==>
        r == AllocSpec(old(used), buffer.Length, size, alignment)
        && (r.Ok? ==> var n := Block(old(used), r.slice.ptr, size);
             live == old(live) - {b} + {n} && used == n.End() && r.slice == Slice(n.start, n.len))
      ensures mem.Some? && r.Ok? ==> CopiedTo(old(buffer[..]), b.start, buffer[..], r.slice.ptr, Min(size, b.len))
    {
      if mem.None? {
        return Err(InvalidInput);
      }
      var oldMem := mem.value;
      if oldMem.ptr + oldMem.len == used {
        ResizeTopKeepsOwned(HEADER, live, used, b, size);
        used := (used - oldMem.len) + size;
        live := live - {b} + {b.(len := size)};
        return Ok(Slice(oldMem.ptr, size));
      }
      r := MoveTo(oldMem, size, alignment, b);
    }

    /** Only the topmost block gives its bytes back; any other is merely forgotten. */
    method Free(mem: Option<Slice>, ghost b: Block)
      requires Valid()
      requires mem.Some? ==> b in live && mem.value == Slice(b.start, b.len)
      modifies this
      ensures Valid()
      ensures live == if mem.Some? then old(live) - {b} else old(live)
      ensures used == if mem.Some? then FreeSpec(old(used), b) else old(used)
    {
      if mem.None? {
        return;
      }
      live := live - {b};
      if mem.value.ptr + mem.value.len != used {
        return;
      }
      PopKeepsOwned(HEADER, old(live), used, b);
      used := LoadWord(buffer, mem.value.ptr - HEADER, HEADER, b.prev);
    }

    method Reset()
      requires Valid()
      modifies this
      ensures Valid() && used == 0 && live == {}
    {
      used := 0;
      live := {};
    }

    /** The owner of a block writes one of its bytes. */
    method UserWrite(ghost b: Block, pos: nat, value: nat)
      requires Valid() && b in live && b.start <= pos < b.End()
      modifies buffer
      ensures Valid() && Untouched(live - {b})
      ensures buffer[..] == old(buffer[..])[pos := Byte(value)]
    {
      buffer[pos] := Byte(value);
      UserBytesAreSafe(old(buffer[..]), buffer[..], live, used, b);
    }
  }

  /** Writing inside one block's user bytes harms no header and no other block. */
  lemma UserBytesAreSafe(m: seq<Cell<nat>>, n: seq<Cell<nat>>, live: set<Block>, used: nat, b: Block)
    requires Owned(HEADER, live, used) && HeadersIntact(m, live) && b in live && used <= |m| == |n|
    requires forall i :: 0 <= i < |m| && !(b.start <= i < b.End()) ==> n[i] == m[i]
    ensures HeadersIntact(n, live)
    ensures forall c :: c in live && c != b ==> SameOn(m, n, c.prev, c.End())
  {
    forall c | c in live ensures HoldsWord(n, c.start - HEADER, HEADER, c.prev) {
      assert HoldsWord(m, c.start - HEADER, HEADER, c.prev);
      if c != b { assert Apart(b, c); }
    }
    forall c | c in live && c != b ensures SameOn(m, n, c.prev, c.End()) {
      assert Apart(b, c);
    }
  }

  /** The answer to a request, from the boundary alone. */
  function AllocSpec(used: nat, capacity: nat, size: nat, alignment: nat): Result {
    var align := Max(if alignment == 0 then 1 else alignment, HEADER);
    var start := Place(HEADER, used, align);
    if size == 0 then Err(InvalidInput)
    else if start + size > capacity then Err(OutOfMemory)
    else Ok(Slice(start, size))
  }

  /** A granted slice has the size asked for, starts at the first suitably aligned offset
      that leaves room for the header, and lies in the buffer. A request is refused
      exactly when no such offset does. */
  lemma AllocSpecIsTight(used: nat, capacity: nat, size: nat, alignment: nat)
    requires alignment == 0 || IsPow2(alignment)
    ensures var r, align := AllocSpec(used, capacity, size, alignment), Max(alignment, HEADER);
      && (r.Ok? ==> r.slice.ptr % align == 0 && used + HEADER <= r.slice.ptr < used + HEADER + align)
      && (r.Ok? ==> r.slice.len == size && r.slice.ptr + r.slice.len <= capacity)
      && (r == Err(InvalidInput) <==> size == 0)
      && (r == Err(OutOfMemory) <==>
          size > 0 && forall p: nat :: used + HEADER <= p && p % align == 0 ==> p + size > capacity)
  {
    assert IsPow2(8);
    var align := Max(alignment, HEADER);
    PlaceIsTight(HEADER, used, align);
    forall p: nat | used + HEADER <= p && p % align == 0 ensures Place(HEADER, used, align) <= p {
      PlaceIsLeast(HEADER, used, align, p);
    }
  }

  function FreeSpec(used: nat, b: Block): nat {
    if b.End() == used then b.prev else used
  }

  // ---------------------------------------------------------------------------
  // Runs.

  datatype Request = Request(size: nat, alignment: nat)

  /** The blocks a run of requests yields, in order; refused requests yield none. */
  function AllocAll(used: nat, capacity: nat, reqs: seq<Request>): (seq<Block>, nat)
    decreases |reqs|
  {
    if reqs == [] then ([], used)
    else
      match AllocSpec(used, capacity, reqs[0].size, reqs[0].alignment)
      case Err(_) => AllocAll(used, capacity, reqs[1..])
      case Ok(s) =>
        var (bs, u) := AllocAll(s.ptr + s.len, capacity, reqs[1..]);
        ([Block(used, s.ptr, s.len)] + bs, u)
  }

  function FreeReversed(used: nat, bs: seq<Block>): nat {
    if bs == [] then used else FreeSpec(FreeReversed(used, bs[1..]), bs[0])
  }

  /** Freeing in reverse order restores the boundary, for any requests. */
  lemma {:induction false} LifoConservation(used: nat, capacity: nat, reqs: seq<Request>)
    ensures var (bs, u) := AllocAll(used, capacity, reqs); FreeReversed(u, bs) == used
    decreases |reqs|
  {
    if reqs != [] {
      match AllocSpec(used, capacity, reqs[0].size, reqs[0].alignment)
      case Err(_) => LifoConservation(used, capacity, reqs[1..]);
      case Ok(s) =>
        LifoConservation(s.ptr + s.len, capacity, reqs[1..]);
        var (bs, u) := AllocAll(s.ptr + s.len, capacity, reqs[1..]);
        assert ([Block(used, s.ptr, s.len)] + bs)[1..] == bs;
    }
  }
}
