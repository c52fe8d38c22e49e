/** `cu_ArenaAllocator`: block stacks in a growing list of chunks. */
module ArenaAllocators {
  import opened Allocation
  import opened Options
  import opened Utility
  import opened Memory
  import opened Blocks

  const HEADER: nat := 16
  const DEFAULT_CHUNK_SIZE: nat := 4096

  /** What stands before each block: its chunk and the boundary before it. */
  datatype Header = Header(chunk: Chunk, prevOffset: nat)

  /** A pointer into the memory of some chunk. */
  datatype Slice = Slice(data: array<Cell<Header>>, ptr: nat, len: nat) | Null

  datatype Result = Ok(slice: Slice) | Err(error: Error)

  ghost predicate HeadersIntact(m: seq<Cell<Header>>, c: Chunk, live: set<Block>) {
    forall b :: b in live ==> b.start >= HEADER && HoldsWord(m, b.start - HEADER, HEADER, Header(c, b.prev))
  }

  class Chunk {
    var prev: Chunk?
    const size: nat
    var used: nat
    const data: array<Cell<Header>>

    constructor (size: nat)
      ensures fresh(data) && data.Length == this.size == size && used == 0 && prev == null
    {
      prev := null;
      this.size := size;
      used := 0;
      data := new Cell<Header>[size](_ => Byte(0));
    }

    /** The chunk's abstract state: size and boundary, live blocks, and bytes. */
    ghost predicate Ok(s: Space, live: set<Block>, mem: seq<Cell<Header>>)
      reads this, data
    {
      && data[..] == mem
      && data.Length == size == s.size && used == s.used <= s.size
      && Owned(HEADER, live, s.used)
      && HeadersIntact(mem, this, live)
    }

    /** Carves a block at the boundary. */
    method Bump(size: nat, align: nat, ghost s: Space, ghost live: set<Block>, ghost mem: seq<Cell<Header>>)
      returns (r: Slice, ghost mem': seq<Cell<Header>>)
      requires Ok(s, live, mem) && IsPow2(align) && Fits(s, size, align)
      modifies this`used, data
      ensures var b := NewBlock(s, size, align);
        && Ok(Space(s.size, b.End()), live + {b}, mem')
        && r == Slice(data, b.start, size) && b !in live
      ensures Untouched(mem, mem', live)
    {
      PlaceIsTight(HEADER, used, align);
      var start := AlignUp(used + HEADER, align);
      PushKeepsOwned(HEADER, live, used, NewBlock(s, size, align));
      StoreWord(data, start - HEADER, HEADER, Header(this, used));
      used := start + size;
      r, mem' := Slice(data, start, size), data[..];
    }

    /** Copies into a live block. */
    static method CopyIn(ghost c: Chunk, dst: array<Cell<Header>>, d: nat, src: array<Cell<Header>>, p: nat, n: nat,
        ghost s: Space, ghost live: set<Block>, ghost mem: seq<Cell<Header>>, ghost b: Block)
      returns (ghost mem': seq<Cell<Header>>)
      requires dst == c.data && c.Ok(s, live, mem) && b in live && b.start <= d && d + n <= b.End()
      requires p + n <= src.Length && (src == dst ==> p + n <= d || d + n <= p)
      modifies dst
      ensures c.Ok(s, live, mem') && CopiedTo(old(src[..]), p, mem', d, n)
      ensures forall e :: e in live && e != b ==> SameOn(mem, mem', e.prev, e.End())
    {
      Copy(dst, d, src, p, n);
      mem' := dst[..];
      UserBytesAreSafe(mem, mem', c, live, s.used, b);
    }

    lemma Inside(s: Space, live: set<Block>, mem: seq<Cell<Header>>, b: Block)
      requires Ok(s, live, mem) && b in live
      ensures b.prev <= b.start && b.End() <= data.Length && data[..] == mem
      ensures forall c :: c in live && c != b ==> c.End() <= b.start || b.End() <= c.start
    {
      assert forall c :: c in live && c != b ==> Apart(b, c);
    }
  }

  /** Every byte owned by the listed blocks of a chunk is the same in both memories. */
  ghost predicate Untouched(m: seq<Cell<Header>>, n: seq<Cell<Header>>, live: set<Block>) {
    forall b :: b in live ==> SameOn(m, n, b.prev, b.End())
  }

  ghost predicate Kept(ms: seq<seq<Cell<Header>>>, ns: seq<seq<Cell<Header>>>, lives: seq<set<Block>>) {
    && |lives| == |ms| <= |ns|
    && forall i :: 0 <= i < |ms| ==> Untouched(ms[i], ns[i], lives[i])
  }

  /** Writing inside one block's user bytes harms no header and no other block. */
  lemma UserBytesAreSafe(m: seq<Cell<Header>>, n: seq<Cell<Header>>, c: Chunk, live: set<Block>, used: nat, b: Block)
    requires Owned(HEADER, live, used) && HeadersIntact(m, c, live) && b in live && used <= |m| == |n|
    requires forall i :: 0 <= i < |m| && !(b.start <= i < b.End()) ==> n[i] == m[i]
    ensures HeadersIntact(n, c, live)
    ensures forall d :: d in live && d != b ==> SameOn(m, n, d.prev, d.End())
  {
    forall d | d in live ensures HoldsWord(n, d.start - HEADER, HEADER, Header(c, d.prev)) {
      assert HoldsWord(m, d.start - HEADER, HEADER, Header(c, d.prev));
      if d != b { assert Apart(b, d); }
    }
    forall d | d in live && d != b ensures SameOn(m, n, d.prev, d.End()) {
      assert Apart(b, d);
    }
  }

  // ---------------------------------------------------------------------------
  // The abstract state: sizes and boundaries, oldest chunk first.

  datatype Space = Space(size: nat, used: nat)

  predicate Fits(s: Space, size: nat, align: nat)
    requires align > 0
  {
    Place(HEADER, s.used, align) + size <= s.size
  }

  /** A request fits exactly when some aligned start after the boundary and a header
      leaves it inside the chunk. */
  lemma FitsIsExact(s: Space, size: nat, align: nat)
    requires IsPow2(align)
    ensures Fits(s, size, align) <==>
      exists p: nat :: s.used + HEADER <= p && p % align == 0 && p + size <= s.size
  {
    PlaceIsTight(HEADER, s.used, align);
    forall p: nat | s.used + HEADER <= p && p % align == 0 && p + size <= s.size
      ensures Place(HEADER, s.used, align) <= p
    {
      PlaceIsLeast(HEADER, s.used, align, p);
    }
  }

  /** The newest of the first `n` chunks that can take the request. */
  function Scan(ss: seq<Space>, n: nat, size: nat, align: nat): (r: Option<nat>)
    requires n <= |ss| && align > 0
    ensures r.Some? ==> r.value < n && Fits(ss[r.value], size, align)
    ensures r.Some? ==> forall i :: r.value < i < n ==> !Fits(ss[i], size, align)
    ensures r.None? ==> forall i :: 0 <= i < n ==> !Fits(ss[i], size, align)
  {
    if n == 0 then None
    else if Fits(ss[n - 1], size, align) then Some(n - 1)
    else Scan(ss, n - 1, size, align)
  }

  /** The size of the chunk created for a request nothing can take. */
  function NewSize(chunkSize: nat, size: nat, align: nat): nat
    requires align > 0
  {
    Max(align - 1 + size + HEADER, if chunkSize == 0 then DEFAULT_CHUNK_SIZE else chunkSize)
  }

  /** A freshly created chunk always fits the request that caused it. */
  lemma NewChunkFits(chunkSize: nat, size: nat, align: nat)
    requires align > 0 && IsPow2(align)
    ensures Fits(Space(NewSize(chunkSize, size, align), 0), size, align)
  {
    PlaceIsTight(HEADER, 0, align);
  }

  /** A new chunk has the size configured, and more only for a request that could miss
      it: no smaller one takes the bytes and the header behind any misalignment. */
  lemma NewSizeIsLeast(chunkSize: nat, size: nat, align: nat, n: nat)
    requires align > 0
    ensures NewSize(chunkSize, size, align) <= n <==>
      (if chunkSize == 0 then 4096 else chunkSize) <= n && forall d: nat :: d < align ==> HoldsBehind(n, d, size)
  {
    assert HoldsBehind(n, align - 1, size) <==> align - 1 + HEADER + size <= n;
  }

  predicate HoldsBehind(n: nat, d: nat, size: nat) { d + HEADER + size <= n }

  /** Where a request goes: the newest chunk with room, else one past the end. */
  function Target(ss: seq<Space>, size: nat, align: nat): (i: nat)
    requires align > 0
    ensures i <= |ss|
  {
    match Scan(ss, |ss|, size, align)
    case Some(i) => i
    case None => |ss|
  }

  function NewBlock(s: Space, size: nat, align: nat): Block
    requires align > 0
  {
    Block(s.used, Place(HEADER, s.used, align), size)
  }

  /** The chunks a request works on, a new empty one included when it takes one. */
  function Extended(ss: seq<Space>, chunkSize: nat, size: nat, align: nat): (r: seq<Space>)
    requires align > 0
    ensures Target(ss, size, align) < |r|
  {
    if Target(ss, size, align) < |ss| then ss else ss + [Space(NewSize(chunkSize, size, align), 0)]
  }

  function Allocated(ss: seq<Space>, chunkSize: nat, size: nat, align: nat): seq<Space>
    requires align > 0
  {
    var i, es := Target(ss, size, align), Extended(ss, chunkSize, size, align);
    es[i := Space(es[i].size, NewBlock(es[i], size, align).End())]
  }

  function BlockFor(ss: seq<Space>, chunkSize: nat, size: nat, align: nat): Block
    requires align > 0
  {
    NewBlock(Extended(ss, chunkSize, size, align)[Target(ss, size, align)], size, align)
  }

  /** The block of a request has the size asked for, starts at the first aligned offset
      that leaves room for the header behind the boundary, and lies in its chunk. */
  lemma BlockForIsTight(ss: seq<Space>, chunkSize: nat, size: nat, align: nat)
    requires IsPow2(align)
    ensures var s, b := Extended(ss, chunkSize, size, align)[Target(ss, size, align)],
      BlockFor(ss, chunkSize, size, align);
      && b.len == size && b.start % align == 0 && b.prev == s.used && b.start + size <= s.size
      && s.used + HEADER <= b.start < s.used + HEADER + align
  {
    PlaceIsTight(HEADER, Extended(ss, chunkSize, size, align)[Target(ss, size, align)].used, align);
    NewChunkFits(chunkSize, size, align);
  }

  /** Freeing moves the boundary back only under the topmost block. */
  function Freed(ss: seq<Space>, k: nat, b: Block): seq<Space>
    requires k < |ss|
  {
    if b.End() == ss[k].used then ss[k := Space(ss[k].size, b.prev)] else ss
  }

  ghost function PrevOf(cs: seq<Chunk>, i: nat): Chunk?
    requires i <= |cs|
  {
    if i == 0 then null else cs[i - 1]
  }

  ghost predicate WellLinked(cs: seq<Chunk>, current: Chunk?)
    reads cs
  {
    && current == PrevOf(cs, |cs|)
    && (forall i {:trigger PrevOf(cs, i)} :: 0 <= i < |cs| ==> cs[i].prev == PrevOf(cs, i))
    && (forall i, j :: 0 <= i < j < |cs| ==> cs[i] != cs[j] && cs[i].data != cs[j].data)
  }

  /** The live blocks once block `b` of chunk `i` is handed out. */
  ghost function Granted(lives: seq<set<Block>>, i: nat, b: Block): seq<set<Block>>
    requires i <= |lives|
  {
    if i < |lives| then lives[i := lives[i] + {b}] else lives + [{b}]
  }

  /** The block is new to its chunk. */
  ghost predicate NotYet(lives: seq<set<Block>>, i: nat, b: Block) {
    i < |lives| ==> b !in lives[i]
  }

  ghost predicate PointsTo(r: Result, cs: seq<Chunk>, i: nat, b: Block) {
    i < |cs| && r == Ok(Slice(cs[i].data, b.start, b.len))
  }

  lemma GrantedFrom(lives: seq<set<Block>>, i: nat, b: Block)
    requires i <= |lives|
    ensures var ls := lives + (if i < |lives| then [] else [{}]);
      ls[i := ls[i] + {b}] == Granted(lives, i, b)
  {
    if i == |lives| {
      assert {} + {b} == {b};
      assert (lives + [{}])[i := {b}] == lives + [{b}];
    } else {
      assert lives + [] == lives;
    }
  }

  lemma LinkedAfterAdd(cs: seq<Chunk>, c: Chunk)
    requires WellLinked(cs, PrevOf(cs, |cs|)) && c.prev == PrevOf(cs, |cs|)
    requires forall i :: 0 <= i < |cs| ==> cs[i] != c && cs[i].data != c.data
    ensures WellLinked(cs + [c], c)
  {
    var ds := cs + [c];
    forall i | 0 <= i < |ds| ensures ds[i].prev == PrevOf(ds, i) {
      assert PrevOf(ds, i) == PrevOf(cs, i);
    }
  }

  class ArenaAllocator {
    var current: Chunk?
    const chunkSize: nat
    // The chunk list, oldest first, and its abstract state.
    ghost var chunks: seq<Chunk>
    ghost var spaces: seq<Space>
    ghost var lives: seq<set<Block>>
    ghost var mems: seq<seq<Cell<Header>>>
    ghost var repr: set<object>

    ghost predicate Valid()
      reads this, repr
    {
      && this in repr
      && |chunks| == |spaces| == |lives| == |mems|
      && (forall c :: c in chunks ==> c in repr && c.data in repr)
      && WellLinked(chunks, current)
      && forall i :: 0 <= i < |chunks| ==> chunks[i].Ok(spaces[i], lives[i], mems[i])
    }

    constructor (chunkSize: nat)
      ensures Valid() && chunks == [] && spaces == [] && lives == [] && fresh(repr)
      ensures this.chunkSize == if chunkSize == 0 then DEFAULT_CHUNK_SIZE else chunkSize
    {
      this.chunkSize := if chunkSize == 0 then DEFAULT_CHUNK_SIZE else chunkSize;
      current := null;
      chunks, spaces, lives, mems := [], [], [], [];
      repr := {this};
    }

    /** First fit from the newest chunk back to the oldest. */
    method FindRoom(size: nat, align: nat) returns (target: Chunk?)
      requires Valid() && align > 0
      ensures var i := Target(spaces, size, align);
        target == if i < |chunks| then chunks[i] else null
    {
      hide Owned, HeadersIntact, AlignUp;
      var c := current;
      ghost var n: nat := |chunks|;
      while c != null
        invariant n <= |chunks| && c == PrevOf(chunks, n)
        invariant Scan(spaces, |chunks|, size, align) == Scan(spaces, n, size, align)
        decreases n
      {
        assert c.Ok(spaces[n - 1], lives[n - 1], mems[n - 1]);
        var start := AlignUp(c.used + HEADER, align);
        if start + size <= c.size {
          return c;
        }
        n := n - 1;
        assert c.prev == PrevOf(chunks, n);
        c := c.prev;
      }
      target := null;
    }

    method AddChunk(size: nat) returns (c: Chunk)
      requires Valid()
      modifies this
      ensures Valid() && fresh(repr - old(repr))
      ensures chunks == old(chunks) + [c] && spaces == old(spaces) + [Space(size, 0)]
      ensures lives == old(lives) + [{}] && |mems| == |old(mems)| + 1 && old(mems) <= mems
    {
      c := new Chunk(size);
      c.prev := current;
      current := c;
      chunks, spaces, lives, mems := chunks + [c], spaces + [Space(size, 0)], lives + [{}], mems + [c.data[..]];
      repr := repr + {c, c.data};
      LinkedAfterAdd(old(chunks), c);
      forall i | 0 <= i < |chunks| ensures chunks[i].Ok(spaces[i], lives[i], mems[i]) {
        if i < |old(chunks)| { assert chunks[i] == old(chunks)[i] && old(chunks[i].Ok(spaces[i], lives[i], mems[i])); }
      }
    }

    /** Carves a block out of one of the chunks. */
    method Carve(c: Chunk, size: nat, align: nat, ghost i: nat) returns (s: Slice)
      requires Valid() && i < |chunks| && c == chunks[i]
      requires IsPow2(align) && Fits(spaces[i], size, align)
      modifies this`spaces, this`lives, this`mems, c`used, c.data
      ensures Valid() && Kept(old(mems), mems, old(lives))
      ensures var b := NewBlock(old(spaces[i]), size, align);
        && s == Slice(c.data, b.start, size)
        && b !in old(lives[i])
        && spaces == old(spaces)[i := Space(old(spaces[i].size), b.End())]
        && lives == old(lives)[i := old(lives[i]) + {b}]
    {
      ghost var b, m := NewBlock(spaces[i], size, align), [];
      s, m := c.Bump(size, align, spaces[i], lives[i], mems[i]);
      spaces, lives, mems := spaces[i := Space(spaces[i].size, b.End())], lives[i := lives[i] + {b}], mems[i := m];
      forall j | 0 <= j < |chunks| && j != i ensures chunks[j].Ok(spaces[j], lives[j], mems[j]) {
        assert chunks[j] != c && chunks[j].data != c.data;
      }
    }

    /** The chunk that will serve a request, created when none has room. */
    method Reserve(size: nat, align: nat, granted: bool) returns (target: Chunk?)
      requires Valid() && IsPow2(align)
      modifies this
      ensures Valid() && fresh(repr - old(repr))
      ensures target == null <==> !granted && Target(old(spaces), size, align) == |old(spaces)|
      ensures old(chunks) <= chunks && old(mems) <= mems
      ensures target == null ==> chunks == old(chunks) && spaces == old(spaces) && lives == old(lives)
      ensures target != null ==>
        var i := Target(old(spaces), size, align);
        && i < |chunks| && target == chunks[i] && Fits(spaces[i], size, align)
        && spaces == Extended(old(spaces), chunkSize, size, align)
        && lives == old(lives) + (if i < |old(lives)| then [] else [{}])
    {
      hide Chunk.Ok, Fits;
      var defaultSize := if chunkSize == 0 then DEFAULT_CHUNK_SIZE else chunkSize;
      var needed := align - 1 + size + HEADER;
      target := FindRoom(size, align);
      if target == null {
        var newSize := Max(needed, defaultSize);
        if !granted {
          return;
        }
        NewChunkFits(chunkSize, size, align);
        target := AddChunk(newSize);
      }
    }

    /** `granted` is the backing allocator's answer if a chunk is requested. */
    method Alloc(size: nat, alignment: nat, granted: bool) returns (r: Result)
      requires Valid() && IsPow2(Align(alignment))
      modifies repr
      ensures Valid() && fresh(repr - old(repr))
      ensures old(chunks) <= chunks && Kept(old(mems), mems, old(lives))
      ensures r == Err(InvalidInput) <==> size == 0
      ensures r == Err(OutOfMemory) <==>
        size > 0 && !granted && Target(old(spaces), size, Align(alignment)) == |old(spaces)|
      ensures r.Err? ==> spaces == old(spaces) && lives == old(lives)
      ensures r.Ok? ==>
        var a := Align(alignment);
        var i, b := Target(old(spaces), size, a), BlockFor(old(spaces), chunkSize, size, a);
        && spaces == Allocated(old(spaces), chunkSize, size, a)
        && PointsTo(r, chunks, i, b)
        && lives == Granted(old(lives), i, b) && NotYet(old(lives), i, b)
    {
      hide Chunk.Ok, Fits, Target, Extended;
      if size == 0 {
        return Err(InvalidInput);
      }
      var align := if alignment == 0 then 1 else alignment;
      var target := Reserve(size, align, granted);
      if target == null {
        return Err(OutOfMemory);
      }
      ghost var i, ms := Target(old(spaces), size, align), mems;
      var s := Carve(target, size, align, i);
      GrantedFrom(old(lives), i, BlockFor(old(spaces), chunkSize, size, align));
      KeptThrough(old(mems), ms, mems, old(lives), old(lives) + (if i < |old(lives)| then [] else [{}]));
      r := Ok(s);
    }

    /** A live block's header names its chunk and the boundary before it. */
    method LoadHeader(mem: Slice, ghost k: nat, ghost b: Block) returns (hdr: Header)
      requires Valid() && mem.Slice? && IsLive(mem.(len := b.len), k, b)
      ensures hdr == Header(chunks[k], b.prev)
    {
      assert chunks[k].Ok(spaces[k], lives[k], mems[k]);
      hdr := LoadWord(mem.data, mem.ptr - HEADER, HEADER, Header(chunks[k], b.prev));
    }

    /** `mem` is a slice this arena handed out: block `b` of chunk `k`. */
    ghost predicate IsLive(mem: Slice, k: nat, b: Block)
      requires |chunks| == |lives|
      reads this
    {
      k < |chunks| && b in lives[k] && mem == Slice(chunks[k].data, b.start, b.len)
    }

    /** Moves one chunk's boundary and replaces its set of live blocks. */
    method SetBoundary(c: Chunk, used: nat, ghost k: nat, ghost live: set<Block>)
      requires Valid() && k < |chunks| && c == chunks[k] && used <= c.size
      requires Owned(HEADER, live, used) && HeadersIntact(mems[k], c, live)
      modifies this`spaces, this`lives, c`used
      ensures Valid() && lives == old(lives)[k := live]
      ensures spaces == old(spaces)[k := Space(old(spaces[k].size), used)]
    {
      c.used := used;
      spaces, lives := spaces[k := Space(spaces[k].size, used)], lives[k := live];
      assert c.Ok(spaces[k], lives[k], mems[k]);
    }

    /** Replaces one chunk's set of live blocks where nothing in memory changes. */
    ghost method Relabel(k: nat, live: set<Block>)
      requires Valid() && k < |chunks| && Owned(HEADER, live, spaces[k].used)
      requires HeadersIntact(mems[k], chunks[k], live)
      modifies this`lives
      ensures Valid() && lives == old(lives)[k := live]
    {
      assert chunks[k].Ok(spaces[k], lives[k], mems[k]);
      lives := lives[k := live];
    }

    /** Only the topmost block of its chunk gives its bytes back. `mem` may carry an
        outdated length as long as that does not reach the boundary. */
    method Free(mem: Slice, ghost k: nat, ghost b: Block)
      requires Valid() && (mem.Slice? ==> IsLive(mem.(len := b.len), k, b))
      requires mem.Slice? && mem.len != b.len ==> mem.ptr + mem.len != spaces[k].used
      modifies this`spaces, this`lives, chunks
      ensures Valid()
      ensures mem.Null? ==> spaces == old(spaces) && lives == old(lives)
      ensures mem.Slice? ==> lives == Dropped(old(lives), k, b)
      ensures mem.Slice? ==> spaces == if mem.len == b.len then Freed(old(spaces), k, b) else old(spaces)
    {
      if mem.Null? {
        return;
      }
      var hdr := LoadHeader(mem, k, b);
      var chunk := hdr.chunk;
      assert chunk.Ok(spaces[k], lives[k], mems[k]);
      if mem.ptr + mem.len != chunk.used {
        Relabel(k, lives[k] - {b});
        return;
      }
      PopKeepsOwned(HEADER, lives[k], chunk.used, b);
      SetBoundary(chunk, hdr.prevOffset, k, lives[k] - {b});
    }

    /** Copies a block's contents into a block just handed out. */
    method CopyInto(dst: Slice, ghost i: nat, ghost n: Block, src: Slice, ghost k: nat, ghost b: Block)
      requires Valid() && IsLive(dst, i, n) && IsLive(src, k, b)
      requires i == k ==> n != b
      modifies this`mems, dst.data
      ensures Valid() && Kept(old(mems), mems, Dropped(lives, i, n))
      ensures CopiedTo(old(mems[k]), b.start, mems[i], n.start, Min(n.len, b.len))
    {
      hide Chunk.Ok, IsPow2, Kept, Dropped;
      ghost var m := mems[i];
      chunks[i].Inside(spaces[i], lives[i], mems[i], n);
      chunks[k].Inside(spaces[k], lives[k], mems[k], b);
      if src.len > 0 {
        m := Chunk.CopyIn(chunks[i], dst.data, dst.ptr, src.data, src.ptr, Min(dst.len, src.len), spaces[i], lives[i],
          mems[i], n);
      }
      UserChange(mems, lives, i, m, n);
      mems := mems[i := m];
      forall j | 0 <= j < |chunks| && j != i ensures chunks[j].Ok(spaces[j], lives[j], mems[j]) {
        assert chunks[j].data != chunks[i].data;
      }
    }

    /** The fallback of growing: a new block takes over the contents, then the old
        one is freed. */
    method MoveTo(mem: Slice, size: nat, alignment: nat, granted: bool, ghost k: nat, ghost b: Block)
        returns (r: Result)
      requires Valid() && IsPow2(Align(alignment)) && IsLive(mem, k, b)
      modifies repr
      ensures Valid() && fresh(repr - old(repr))
      ensures old(chunks) <= chunks && Kept(old(mems), mems, old(lives))
      ensures r == Err(InvalidInput) <==> size == 0
      ensures r == Err(OutOfMemory) <==>
        size > 0 && !granted && Target(old(spaces), size, Align(alignment)) == |old(spaces)|
      ensures r.Err? ==> spaces == old(spaces) && lives == old(lives)
      ensures r.Ok? ==>
        var a := Align(alignment);
        var i, n := Target(old(spaces), size, a), BlockFor(old(spaces), chunkSize, size, a);
        && spaces == Freed(Allocated(old(spaces), chunkSize, size, a), k, b)
        && PointsTo(r, chunks, i, n) && i < |mems|
        && lives == Dropped(Granted(old(lives), i, n), k, b)
        && CopiedTo(old(mems[k]), b.start, mems[i], n.start, Min(size, b.len))
    {
      hide Chunk.Ok, IsPow2, Fits, Kept, CopiedTo, WellLinked;
      chunks[k].Inside(spaces[k], lives[k], mems[k], b);
      r := Alloc(size, alignment, granted);
      if r.Ok? {
        ghost var i := Target(old(spaces), size, Align(alignment));
        ghost var n := BlockFor(old(spaces), chunkSize, size, Align(alignment));
        ghost var ms := mems;
        TakeOver(r.slice, i, n, mem, k, b);
        MovedContents(old(mems), ms, mems, old(lives), i, n, k, b);
      }
    }

    method TakeOver(dst: Slice, ghost i: nat, ghost n: Block, mem: Slice, ghost k: nat, ghost b: Block)
      requires Valid() && IsLive(dst, i, n) && IsLive(mem, k, b)
      requires i == k ==> n != b
      modifies this`spaces, this`lives, this`mems, chunks, dst.data
      ensures Valid() && |mems| == |old(mems)| && Kept(old(mems), mems, Dropped(old(lives), i, n))
      ensures spaces == Freed(old(spaces), k, b) && lives == Dropped(old(lives), k, b)
      ensures CopiedTo(old(mems[k]), b.start, mems[i], n.start, Min(n.len, b.len))
    {
      hide Chunk.Ok, Kept, CopiedTo;
      CopyInto(dst, i, n, mem, k, b);
      Free(mem, k, b);
    }

    method Grow(mem: Slice, size: nat, alignment: nat, granted: bool, ghost k: nat, ghost b: Block) returns (r: Result)
      requires Valid() && IsPow2(Align(alignment)) && (mem.Slice? ==> IsLive(mem, k, b))
      modifies repr
      ensures Valid() && fresh(repr - old(repr))
      ensures old(chunks) <= chunks && Kept(old(mems), mems, old(lives))
      ensures r.Err? ==> spaces == old(spaces) && lives == old(lives)
      ensures mem.Null? || !GrowsInPlace(old(spaces[k]), b, size) ==>
        (r == Err(InvalidInput) <==> size == 0) &&
        (r == Err(OutOfMemory) <==>
          size > 0 && !granted && Target(old(spaces), size, Align(alignment)) == |old(spaces)|)
      ensures mem.Null? && r.Ok? ==>
        var a := Align(alignment);
        var i, n := Target(old(spaces), size, a), BlockFor(old(spaces), chunkSize, size, a);
        && spaces == Allocated(old(spaces), chunkSize, size, a)
        && PointsTo(r, chunks, i, n) && lives == Granted(old(lives), i, n)
      // The topmost block grows where it is whenever its chunk has room.
      ensures mem.Slice? && GrowsInPlace(old(spaces[k]), b, size) ==>
        && r == Ok(Slice(mem.data, b.start, size)) && mems == old(mems)
        && spaces == Resized(old(spaces), k, b, size) && lives == Relabelled(old(lives), k, b, size)
      // Otherwise a new block takes over its contents.
      ensures mem.Slice? && r.Ok? && !GrowsInPlace(old(spaces[k]), b, size) ==>
        var a := Align(alignment);
        var i, n := Target(old(spaces), size, a), BlockFor(old(spaces), chunkSize, size, a);
        && spaces == Freed(Allocated(old(spaces), chunkSize, size, a), k, b)
        && PointsTo(r, chunks, i, n) && i < |mems|
        && lives == Dropped(Granted(old(lives), i, n), k, b)
        && CopiedTo(old(mems[k]), b.start, mems[i], n.start, Min(size, b.len))
    {
      if mem.Null? {
        r := Alloc(size, alignment, granted);
        return;
      }
      var hdr := LoadHeader(mem, k, b);
      var chunk := hdr.chunk;
      assert chunk.Ok(spaces[k], lives[k], mems[k]);
      if mem.ptr + mem.len == chunk.used {
        var avail := chunk.size - chunk.used;
        if size <= mem.len + avail {
          ResizeTop(chunk, mem.ptr + size, k, b, size);
          return Ok(Slice(mem.data, mem.ptr, size));
        }
      }
      r := MoveTo(mem, size, alignment, granted, k, b);
    }

    /** The topmost block changes size and the boundary follows. */
    method ResizeTop(c: Chunk, used: nat, ghost k: nat, ghost b: Block, ghost size: nat)
      requires Valid() && k < |chunks| && c == chunks[k] && b in lives[k]
      requires b.End() == spaces[k].used && used == b.start + size <= spaces[k].size
      modifies this`spaces, this`lives, c`used
      ensures Valid() && spaces == Resized(old(spaces), k, b, size)
      ensures lives == Relabelled(old(lives), k, b, size)
    {
      assert c.Ok(spaces[k], lives[k], mems[k]);
      ResizeTopKeepsOwned(HEADER, lives[k], c.used, b, size);
      SetBoundary(c, used, k, lives[k] - {b} + {b.(len := size)});
    }

    /** A size above the old one is taken as it is, and stays without harm exactly when
        the bytes up to it belong to nobody else. */
    method Shrink(mem: Slice, size: nat, ghost k: nat, ghost b: Block) returns (r: Result)
      requires Valid() && (mem.Slice? ==> IsLive(mem, k, b))
      modifies this`spaces, this`lives, chunks
      ensures Valid() <==> mem.Null? || MayEnd(old(spaces[k]), old(lives[k]), b, b.start + size)
      ensures mem.Null? ==> r == Err(InvalidInput) && spaces == old(spaces) && lives == old(lives)
      ensures mem.Slice? && size > 0 ==>
        && r == Ok(Slice(mem.data, b.start, size))
        && spaces == (if b.End() == old(spaces[k].used) then Resized(old(spaces), k, b, size) else old(spaces))
        && lives == Relabelled(old(lives), k, b, size)
      ensures mem.Slice? && size == 0 ==> r == Ok(Null) && lives == Dropped(old(lives), k, b)
      // Shrinking to nothing frees the block, except that the space before a
      // non-empty topmost block stays taken.
      ensures mem.Slice? && size == 0 ==>
        (spaces == Freed(old(spaces), k, b) <==> b.End() != old(spaces[k].used) || b.len == 0)
      ensures mem.Slice? && size == 0 && b.End() == old(spaces[k].used) && b.len > 0 ==>
        spaces == Resized(old(spaces), k, b, 0)
    {
      if mem.Null? {
        return Err(InvalidInput);
      }
      hide Chunk.Ok, MayEnd;
      var hdr := LoadHeader(mem, k, b);
      SetEnd(hdr.chunk, mem.ptr, mem.len, size, k, b);
      ShrunkToNothing(old(spaces), old(lives[k]), k, b);
      if size == 0 {
        Free(mem, k, b.(len := 0));
        return Ok(Null);
      }
      r := Ok(Slice(mem.data, mem.ptr, size));
    }

    /** Ends a block where the new size ends; under the topmost block the boundary
        follows. */
    method SetEnd(c: Chunk, ptr: nat, len: nat, size: nat, ghost k: nat, ghost b: Block)
      requires Valid() && k < |chunks| && c == chunks[k] && b in lives[k]
      requires ptr == b.start && len == b.len
      modifies this`spaces, this`lives, c`used
      ensures Valid() <==> MayEnd(old(spaces[k]), old(lives[k]), b, b.start + size)
      ensures size <= len ==> Valid()
      ensures lives == Relabelled(old(lives), k, b, size) && Owned(HEADER, old(lives[k]), old(spaces[k].used))
      ensures spaces == if b.End() == old(spaces[k].used) then Resized(old(spaces), k, b, size) else old(spaces)
    {
      assert c.Ok(spaces[k], lives[k], mems[k]);
      if size > len {
        Stretch(c, ptr, len, size, k, b);
      } else {
        Cut(c, ptr, len, size, k, b);
      }
    }

    method Stretch(c: Chunk, ptr: nat, len: nat, size: nat, ghost k: nat, ghost b: Block)
      requires Valid() && k < |chunks| && c == chunks[k] && b in lives[k]
      requires ptr == b.start && size > len == b.len
      modifies this`spaces, this`lives, c`used
      ensures Valid() <==> MayEnd(old(spaces[k]), old(lives[k]), b, b.start + size)
      ensures lives == Relabelled(old(lives), k, b, size)
      ensures spaces == if b.End() == old(spaces[k].used) then Resized(old(spaces), k, b, size) else old(spaces)
    {
      hide HoldsWord, Apart;
      assert c.Ok(spaces[k], lives[k], mems[k]);
      StretchKeepsOwned(HEADER, lives[k], spaces[k].used, b, size);
      ghost var live := lives[k] - {b} + {b.(len := size)};
      assert b.(len := size) in live;
      if ptr + len == c.used {
        c.used := ptr + size;
        spaces := Resized(spaces, k, b, size);
      }
      lives := lives[k := live];
      forall i | 0 <= i < |chunks| && i != k ensures chunks[i].Ok(spaces[i], lives[i], mems[i]) {
        assert old(chunks[i].Ok(spaces[i], lives[i], mems[i]));
      }
      assert c.Ok(spaces[k], lives[k], mems[k]) <==> MayEnd(old(spaces[k]), old(lives[k]), b, b.start + size);
    }

    method Cut(c: Chunk, ptr: nat, len: nat, size: nat, ghost k: nat, ghost b: Block)
      requires Valid() && k < |chunks| && c == chunks[k] && b in lives[k]
      requires ptr == b.start && size <= len == b.len
      modifies this`spaces, this`lives, c`used
      ensures Valid() && lives == Relabelled(old(lives), k, b, size)
      ensures spaces == if b.End() == old(spaces[k].used) then Resized(old(spaces), k, b, size) else old(spaces)
      ensures Owned(HEADER, old(lives[k]), old(spaces[k].used))
    {
      assert c.Ok(spaces[k], lives[k], mems[k]);
      if ptr + len == c.used {
        ResizeTop(c, ptr + size, k, b, size);
      } else {
        CutKeepsOwned(HEADER, lives[k], spaces[k].used, b, size);
        Relabel(k, lives[k] - {b} + {b.(len := size)});
      }
    }

    /** The owner of a block writes one of its bytes. */
    method UserWrite(mem: Slice, pos: nat, value: nat, ghost k: nat, ghost b: Block)
      requires Valid() && IsLive(mem, k, b) && b.start <= pos < b.End()
      modifies this`mems, mem.data
      ensures Valid() && Kept(old(mems), mems, Dropped(lives, k, b))
      ensures mems == old(mems)[k := old(mems[k])[pos := Byte(value)]]
    {
      ghost var c, m := chunks[k], mems[k];
      assert c.Ok(spaces[k], lives[k], m);
      mem.data[pos] := Byte(value);
      UserBytesAreSafe(m, mem.data[..], c, lives[k], spaces[k].used, b);
      mems := mems[k := mem.data[..]];
      forall j | 0 <= j < |chunks| ensures chunks[j].Ok(spaces[j], lives[j], mems[j]) {
        if j != k { assert chunks[j].data != c.data; }
      }
    }
  }

  lemma UserChange(ms: seq<seq<Cell<Header>>>, lives: seq<set<Block>>, i: nat, m: seq<Cell<Header>>, b: Block)
    requires |ms| == |lives| && i < |ms|
    requires forall d :: d in lives[i] && d != b ==> SameOn(ms[i], m, d.prev, d.End())
    ensures Kept(ms, ms[i := m], Dropped(lives, i, b))
  {
  }

  lemma ShrunkToNothing(ss: seq<Space>, live: set<Block>, k: nat, b: Block)
    requires k < |ss| && b in live && Owned(HEADER, live, ss[k].used)
    ensures b.End() == ss[k].used && b.len > 0 ==> Freed(ss, k, b) != Resized(ss, k, b, 0)
    ensures b.End() == ss[k].used && b.len == 0 ==> Freed(Resized(ss, k, b, 0), k, b) == Freed(ss, k, b)
    ensures b.End() != ss[k].used ==> Freed(ss, k, b) == ss
    ensures var c := b.(len := 0); live - {b} + {c} - {c} == live - {b}
  {
    var c := b.(len := 0);
    assert c in live && c != b ==> Apart(b, c);
    if b.End() == ss[k].used {
      assert Freed(ss, k, b)[k].used == b.prev;
      assert Resized(ss, k, b, 0)[k].used == b.start;
    }
  }

  /** Block `b` may end at `end`: below the chunk's end when it is topmost, else below the
      boundary, and in any case below the next live block. */
  ghost predicate MayEnd(s: Space, live: set<Block>, b: Block, end: nat) {
    && end <= (if b.End() == s.used then s.size else s.used)
    && forall c :: c in live && b.End() <= c.prev ==> end <= c.prev
  }

  predicate GrowsInPlace(s: Space, b: Block, size: nat) {
    b.End() == s.used && b.start + size <= s.size
  }

  /** A block grows in place exactly when it is topmost and may end there. */
  lemma GrowsWhenItMay(s: Space, live: set<Block>, b: Block, size: nat)
    requires Owned(HEADER, live, s.used) && b in live && s.used <= s.size
    ensures GrowsInPlace(s, b, size) <==> b.End() == s.used && MayEnd(s, live, b, b.start + size)
  {
  }

  function Resized(ss: seq<Space>, k: nat, b: Block, size: nat): seq<Space>
    requires k < |ss|
  {
    ss[k := Space(ss[k].size, b.start + size)]
  }

  /** Resizing the topmost block does not stand in the way of freeing it. */
  lemma ResizedThenFreed(ss: seq<Space>, k: nat, b: Block, size: nat)
    requires k < |ss| && b.End() == ss[k].used
    ensures Freed(Resized(ss, k, b, size), k, b.(len := size)) == Freed(ss, k, b)
  {
  }

  ghost function Relabelled(lives: seq<set<Block>>, k: nat, b: Block, size: nat): seq<set<Block>>
    requires k < |lives|
  {
    lives[k := lives[k] - {b} + {b.(len := size)}]
  }

  ghost function Dropped(lives: seq<set<Block>>, k: nat, b: Block): seq<set<Block>>
    requires k < |lives|
  {
    lives[k := lives[k] - {b}]
  }

  lemma KeptThrough(ms: seq<seq<Cell<Header>>>, ns: seq<seq<Cell<Header>>>, os: seq<seq<Cell<Header>>>,
      lives: seq<set<Block>>, more: seq<set<Block>>)
    requires ms <= ns && |ms| == |lives| && lives <= more && Kept(ns, os, more)
    ensures Kept(ms, os, lives)
  {
    forall i | 0 <= i < |ms| ensures Untouched(ms[i], os[i], lives[i]) {
      assert Untouched(ns[i], os[i], more[i]);
    }
  }

  /** A move reads what was there before and disturbs no other block. */
  lemma MovedContents(ms: seq<seq<Cell<Header>>>, ns: seq<seq<Cell<Header>>>, os: seq<seq<Cell<Header>>>,
      lives: seq<set<Block>>, i: nat, n: Block, k: nat, b: Block)
    requires |ms| == |lives| && i <= |lives| && k < |lives| && b in lives[k] && NotYet(lives, i, n)
    requires Kept(ms, ns, lives) && |ns| == |Granted(lives, i, n)| == |os|
    requires b.prev <= b.start
    requires Kept(ns, os, Dropped(Granted(lives, i, n), i, n))
    ensures Kept(ms, os, lives)
    ensures CopiedTo(ns[k], b.start, os[i], n.start, Min(n.len, b.len)) ==>
      CopiedTo(ms[k], b.start, os[i], n.start, Min(n.len, b.len))
  {
    forall j | 0 <= j < |ms| ensures Untouched(ms[j], os[j], lives[j]) {
      assert Untouched(ms[j], ns[j], lives[j]);
      assert Untouched(ns[j], os[j], Dropped(Granted(lives, i, n), i, n)[j]);
    }
    assert SameOn(ms[k], ns[k], b.prev, b.End());
  }

  // ---------------------------------------------------------------------------
  // Runs.

  datatype Request = Request(size: nat, alignment: nat, granted: bool)

  /** A request is refused when it asks for nothing, or for a new chunk in vain. */
  predicate Refused(ss: seq<Space>, r: Request) {
    r.size == 0 || (!r.granted && Target(ss, r.size, Align(r.alignment)) == |ss|)
  }

  /** The blocks a run of requests yields, each with the index of its chunk. */
  function AllocAll(ss: seq<Space>, chunkSize: nat, reqs: seq<Request>): (r: (seq<(nat, Block)>, seq<Space>))
    ensures |ss| <= |r.1|
    ensures forall j :: 0 <= j < |r.0| ==> r.0[j].0 < |r.1|
    decreases |reqs|
  {
    if reqs == [] then ([], ss)
    else if Refused(ss, reqs[0]) then AllocAll(ss, chunkSize, reqs[1..])
    else
      var a := Align(reqs[0].alignment);
      var i, b := Target(ss, reqs[0].size, a), BlockFor(ss, chunkSize, reqs[0].size, a);
      var (bs, ts) := AllocAll(Allocated(ss, chunkSize, reqs[0].size, a), chunkSize, reqs[1..]);
      ([(i, b)] + bs, ts)
  }

  function FreeReversed(ss: seq<Space>, bs: seq<(nat, Block)>): (r: seq<Space>)
    requires forall j :: 0 <= j < |bs| ==> bs[j].0 < |ss|
    ensures |r| == |ss|
  {
    if bs == [] then ss else Freed(FreeReversed(ss, bs[1..]), bs[0].0, bs[0].1)
  }

  /** Freeing a run of allocations in reverse order restores the boundary of every
      chunk there was, and empties every chunk the run created. */
  lemma {:induction false} LifoConservation(ss: seq<Space>, chunkSize: nat, reqs: seq<Request>)
    ensures var (bs, ts) := AllocAll(ss, chunkSize, reqs);
      var us := FreeReversed(ts, bs);
      && us[..|ss|] == ss
      && forall j :: |ss| <= j < |us| ==> us[j].used == 0
    decreases |reqs|
  {
    if reqs != [] {
      if Refused(ss, reqs[0]) {
        LifoConservation(ss, chunkSize, reqs[1..]);
      } else {
        var a := Align(reqs[0].alignment);
        var i, b := Target(ss, reqs[0].size, a), BlockFor(ss, chunkSize, reqs[0].size, a);
        var ss' := Allocated(ss, chunkSize, reqs[0].size, a);
        LifoConservation(ss', chunkSize, reqs[1..]);
        var (bs, ts) := AllocAll(ss', chunkSize, reqs[1..]);
        assert ([(i, b)] + bs)[1..] == bs;
        var us := FreeReversed(ts, bs);
        assert forall j :: 0 <= j < |ss'| ==> us[j] == us[..|ss'|][j];
      }
    }
  }
}
