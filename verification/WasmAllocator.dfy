/** `cu_Allocator_WasmAllocator`: size classes with free lists threaded through the
    slots themselves, over pages obtained from `memory.grow`. */
module WasmAllocators {
  import opened Allocation
  import opened Slices
  import opened Bits
  import opened Options
  import opened Utility
  import opened Memory
  import opened WasmPieces

  /** Where `memory.grow` puts new pages: past everything there was. */
  ghost predicate GrowsBeyond(grown: Option<nat>, m: Mem) {
    grown.Some? ==> |m| <= grown.value * PAGE
  }

  /** Where a slot comes from: its address, zero for none, and what `memory.grow`
      returned for it. */
  datatype Source = Source(addr: nat, fetched: set<Region>)

  /** `2^k` bytes of whole pages: a freed slot, else grown memory; none when there is
      neither, or when growing yields the page at zero. */
  function PageSource(st: State, k: nat, grown: Option<nat>): Source
    requires k < |st.lists|
  {
    if st.lists[k] != [] then Source(st.lists[k][0], {})
    else match grown
         case None => Source(0, {})
         case Some(p) => Source(p * PAGE, {Region(p * PAGE, p * PAGE + Pow2(k))})
  }

  function SmallSource(w: nat, st: State, c: nat, grown: Option<nat>): Source
    requires |st.lists| == 8 * w && |st.nexts| == SmallClasses(w) && c < |st.nexts| && WordSize(w)
  {
    if st.lists[MinClass(w) + c] != [] then Source(st.lists[MinClass(w) + c][0], {})
    else if st.nexts[c] % PAGE != 0 then Source(st.nexts[c], {})
    else PageSource(st, PAGE_LOG, grown)
  }

  /** The slot for a request: from the free list of its class, else from the uncarved
      tail of the class, else from whole pages. */
  function SlotSource(w: nat, st: State, needed: nat, grown: Option<nat>): Source
    requires |st.lists| == 8 * w && |st.nexts| == SmallClasses(w) && WordSize(w)
    requires MinClass(w) < CeilLog(needed) <= TakenLog(w, needed) < 8 * w
  {
    if CeilLog(needed) >= PAGE_LOG then PageSource(st, TakenLog(w, needed), grown)
    else SmallSource(w, st, CeilLog(needed) - MinClass(w), grown)
  }

  function Leaks(pieces: set<Piece>): set<Piece> {
    set p | p in pieces && p.Leaked?
  }

  /** Pages were fetched that nobody can be given, because their address is the null
      pointer. */
  predicate Lost(source: Source) { source.addr == 0 && source.fetched != {} }

  /** Every byte ever fetched is in a live, free or leaked slot or in a tail. */
  ghost predicate Complete(st: State) { Filled(st.regions, st.pieces, 0, 0) }

  /** Nothing but the `2^k` bytes at the source's address came out of use. */
  ghost predicate Leaves(st: State, st': State, source: Source, k: nat) {
    Complete(st) && !Lost(source) ==>
      Filled(st'.regions, st'.pieces, source.addr, if source.addr == 0 then 0 else source.addr + Pow2(k))
  }

  /** `2^k` bytes at the source's address were set aside; live and leaked slots are as
      before, and so is all memory that belongs to others. */
  ghost predicate SetAside(w: nat, st: State, st': State, source: Source, k: nat) {
    && Sound(w, st') && Lives(st'.pieces) == Lives(st.pieces) && Leaks(st'.pieces) == Leaks(st.pieces)
    && Kept(st.mem, st'.mem, st.pieces) && Framed(st, st', source.fetched)
    && (source.addr != 0 ==> Hole(st', source.addr, source.addr + Pow2(k)) && SlotAligned(source.addr, k))
    && Leaves(st, st', source, k)
  }

  ghost predicate SlotRange(w: nat, needed: nat) {
    WordSize(w) && MinClass(w) < CeilLog(needed) <= TakenLog(w, needed) < 8 * w
  }

  lemma SmallIsTaken(w: nat, needed: nat)
    requires CeilLog(needed) < PAGE_LOG
    ensures TakenLog(w, needed) == CeilLog(needed)
  {
  }

  lemma BigIsTaken(w: nat, needed: nat)
    requires CeilLog(needed) >= PAGE_LOG
    ensures TakenLog(w, needed) == PAGE_LOG + CeilLog(PagesFor(w, needed)) && PagesFor(w, needed) > 0
  {
  }

  /** What a request for a positive size comes to. When there is an address for it,
      a new live slot in an obtained region is filed under the least fitting size.
      Nothing else live is touched, and nothing outside the regions. The user address
      is a multiple of the alignment for alignments up to a page, and beyond that
      exactly when the slot's address is one. As much again as the slot is lost
      exactly when its last word does not fit behind a large request once more.
      No other byte is lost, unless pages were fetched at the null pointer. */
  ghost predicate Served(w: nat, st: State, st': State, size: nat, align: nat, grown: Option<nat>, r: Result)
    requires IsPow2(align)
  {
    var needed := Needed(w, size, align);
    && SlotRange(w, needed) && |st.lists| == 8 * w && |st.nexts| == SmallClasses(w)
    && var Source(addr, fetched) := SlotSource(w, st, needed, grown);
    Framed(st, st', fetched) && (Complete(st) ==> (Complete(st') <==> !Lost(Source(addr, fetched)))) &&
    if addr == 0 then
      r == Err(OutOfMemory) && Lives(st'.pieces) == Lives(st.pieces) && Leaks(st'.pieces) == Leaks(st.pieces)
      && Kept(st.mem, st'.mem, st.pieces)
    else
      var p := NewLive(w, addr, size, align);
      && r == Ok(Slice(p.pos, size))
      && p !in st.pieces && Lives(st'.pieces) == Lives(st.pieces) + {p} && Inside(st'.regions, addr, p.End())
      && Kept(st.mem, st'.mem, st.pieces)
      && (align <= PAGE ==> p.pos % align == 0) && (p.pos % align == 0 <==> addr % align == 0)
      && Leaks(st'.pieces) == Leaks(st.pieces) + Wasted(w, addr, needed)
  }

  function NewLive(w: nat, addr: nat, size: nat, align: nat): Piece
    requires align > 0
  {
    Live(addr, CeilLog(Needed(w, size, align)), addr + UserOffset(w, align), size)
  }

  class WasmAllocator {
    const w: nat
    const nextAddrs: array<nat>
    const frees: array<nat>
    const bigFrees: array<nat>
    var mem: Mem
    ghost var regions: set<Region>
    ghost var pieces: set<Piece>
    ghost var lists: seq<seq<nat>>

    ghost function St(): State
      reads this, nextAddrs
    {
      State(mem, regions, pieces, lists, nextAddrs[..])
    }

    /** Each array entry is the head of its free list. */
    ghost predicate HeadsOk()
      reads this, frees, bigFrees
    {
      && WordSize(w) && |lists| == 8 * w
      && frees.Length == SmallClasses(w) && bigFrees.Length == BigClasses(w)
      && frees != bigFrees && nextAddrs != frees && nextAddrs != bigFrees
      && (forall c :: 0 <= c < frees.Length ==> frees[c] == Head(lists[MinClass(w) + c]))
      && (forall c :: 0 <= c < bigFrees.Length ==> bigFrees[c] == Head(lists[PAGE_LOG + c]))
    }

    ghost predicate Valid()
      reads this, nextAddrs, frees, bigFrees
    {
      HeadsOk() && nextAddrs.Length == SmallClasses(w) && Sound(w, St())
    }

    /** A machine with words of `w` bytes, all of whose memory belongs to others. */
    constructor (w: nat, mem: Mem)
      requires WordSize(w)
      ensures Valid() && this.w == w && this.mem == mem && regions == {} && pieces == {} && Complete(St())
      ensures (forall k :: 0 <= k < |lists| ==> lists[k] == []) &&
        (forall c :: 0 <= c < nextAddrs.Length ==> nextAddrs[c] == 0)
      ensures fresh(nextAddrs) && fresh(frees) && fresh(bigFrees)
    {
      this.w := w;
      this.mem := mem;
      nextAddrs := new nat[SmallClasses(w)](_ => 0);
      frees := new nat[SmallClasses(w)](_ => 0);
      bigFrees := new nat[BigClasses(w)](_ => 0);
      regions, pieces := {}, {};
      lists := seq(8 * w, _ => []);
    }

    /** Takes the first slot of a small or big free list, if there is one. */
    method PopFree(big: bool, c: nat, slotSize: nat, ghost k: nat) returns (addr: nat)
      requires Valid() && c < (if big then bigFrees.Length else frees.Length)
      requires k == (if big then PAGE_LOG + c else MinClass(w) + c) && slotSize == Pow2(k)
      modifies `pieces, `lists, frees, bigFrees
      ensures Valid() && addr == Head(old(lists)[k])
      ensures addr == 0 ==> old(lists)[k] == [] && St() == old(St())
      ensures addr != 0 ==>
        && old(lists)[k] != [] && St() == Taken(old(St()), k)
        && Hole(St(), addr, addr + slotSize) && SlotAligned(addr, k)
    {
      HeadIsZero(w, St(), k);
      addr := if big then bigFrees[c] else frees[c];
      if addr != 0 {
        TakeFree(w, St(), k);
        hide Sound, Hole, Pow2;
        var node := LoadAt(mem, addr + slotSize - w, w, Link(Head(lists[k][1..])));
        if big {
          bigFrees[c] := node.next;
        } else {
          frees[c] := node.next;
        }
        pieces, lists := Taken(St(), k).pieces, Taken(St(), k).lists;
      }
    }

    /** `alloc_big_pages`: whole pages, a power of two of them. */
    method AllocBigPages(n: nat, grown: Option<nat>) returns (addr: nat)
      requires Valid() && n > 0 && PAGE_LOG + CeilLog(n) < 8 * w && GrowsBeyond(grown, mem)
      modifies `mem, `regions, `pieces, `lists, bigFrees, frees
      ensures Valid() && nextAddrs[..] == old(nextAddrs[..])
      ensures var k := PAGE_LOG + CeilLog(n);
        var source := PageSource(old(St()), k, grown);
        addr == source.addr && SetAside(w, old(St()), St(), source, k)
      ensures addr % PAGE == 0
    {
      hide Sound, SetAside, Pow2, CeilPow2, Hole, SlotAligned, Taken;
      var pow2Pages := NextPow2Word(n, w);
      var slotSize := pow2Pages * PAGE;
      var slotClass := Log2(pow2Pages);
      ghost var k := PAGE_LOG + slotClass;
      PagesTimes(n, k);
      addr := PopFree(true, slotClass, slotSize, k);
      if addr != 0 {
        TakenIsSetAside(w, old(St()), k);
        SlotOnPage(addr, k);
      } else if grown.Some? {
        addr := grown.value * PAGE;
        GrownIsSetAside(w, St(), addr, k);
        mem := Extended(mem, addr + slotSize);
        regions := regions + {Region(addr, addr + slotSize)};
      } else {
        NothingIsSetAside(w, St(), k);
      }
    }

    /** A slot of a small class, or zero. */
    method TakeSlot(c: nat, slotSize: nat, grown: Option<nat>, ghost k: nat) returns (addr: nat)
      requires Valid() && c < frees.Length && k == MinClass(w) + c && slotSize == Pow2(k) && GrowsBeyond(grown, mem)
      modifies `mem, `regions, `pieces, `lists, nextAddrs, frees, bigFrees
      ensures Valid()
      ensures var source := SmallSource(w, old(St()), c, grown);
        addr == source.addr && SetAside(w, old(St()), St(), source, k)
    {
      hide ListOk, PieceOk, Disjoint, Housed, TailsOk, Pow2, Hole, Lives, Leaks, Kept, Foreign, SlotAligned;
      addr := PopFree(false, c, slotSize, k);
      if addr != 0 {
        TakenIsSetAside(w, old(St()), k);
        return;
      }
      var next := nextAddrs[c];
      if next % PAGE == 0 {
        addr := AllocBigPages(1, grown);
        ghost var st := St();
        if addr != 0 {
          nextAddrs[c] := addr + slotSize;
          pieces := pieces + {Tail(addr + slotSize, c)};
          assert St() == Started(w, st, c, addr);
        }
        StartedIsSetAside(w, old(St()), st, PageSource(old(St()), PAGE_LOG, grown), c);
      } else {
        addr := next;
        nextAddrs[c] := next + slotSize;
        pieces := Carved(w, old(St()), c).pieces;
        assert St() == Carved(w, old(St()), c);
        CarvedIsSetAside(w, old(St()), c);
      }
    }

    /** Room for a request: a slot, and possibly as much again that is given up. */
    method TakeRoom(needed: nat, slotSize: nat, grown: Option<nat>) returns (addr: nat)
      requires Valid() && Addressable(w, needed) && needed > HeaderSize(w) + w && GrowsBeyond(grown, mem)
      requires slotSize == CeilPow2(needed)
      modifies `mem, `regions, `pieces, `lists, nextAddrs, frees, bigFrees
      ensures Valid() && SlotRange(w, needed)
      ensures var source := SlotSource(w, old(St()), needed, grown);
        addr == source.addr && SetAside(w, old(St()), St(), source, TakenLog(w, needed))
    {
      hide Sound, SetAside, TakenLog, PagesFor, Pow2, CeilPow2, Log2;
      ClassesSuffice(w, needed);
      var slotClass := Log2(slotSize) - MinClass(w);
      if slotClass < SmallClasses(w) {
        SmallIsTaken(w, needed);
        addr := TakeSlot(slotClass, slotSize, grown, CeilLog(needed));
      } else {
        var pages := BigPagesNeeded(needed);
        BigIsTaken(w, needed);
        addr := AllocBigPages(pages, grown);
      }
    }

    /** `big_pages_needed`: the least number of pages with room for the bytes and for
        one more word. */
    method BigPagesNeeded(byteCount: nat) returns (n: nat)
      requires WordSize(w)
      ensures n > 0 && (n - 1) * PAGE < byteCount + w <= n * PAGE
      ensures n == PagesFor(w, byteCount)
    {
      n := (byteCount + (PAGE + (w - 1))) / PAGE;
    }

    method Alloc(size: nat, alignment: nat, grown: Option<nat>) returns (r: Result)
      requires Valid() && IsPow2(Align(alignment)) && Addressable(w, Needed(w, size, Align(alignment)))
      requires GrowsBeyond(grown, mem)
      modifies `mem, `regions, `pieces, `lists, nextAddrs, frees, bigFrees
      ensures Valid()
      ensures r == Err(InvalidInput) <==> size == 0
      ensures size == 0 ==> St() == old(St())
      ensures size > 0 ==> Served(w, old(St()), St(), size, Align(alignment), grown, r)
    {
      hide Sound, SetAside, Served, SlotSource, SlotRange, AlignUp, Pow2, CeilPow2, Log2, CeilLog;
      if size == 0 {
        return Err(InvalidInput);
      }
      var align := if alignment == 0 then 1 else alignment;
      var userOffset := AlignUp(HeaderSize(w), align);
      AlignUpIsLeastMultiple(HeaderSize(w), align);
      var needed := userOffset + size + w;
      ClassesSuffice(w, needed);
      var slotSize := NextPow2Word(needed, w);
      var addr := TakeRoom(needed, slotSize, grown);
      ghost var st := St();
      if addr == 0 {
        NothingIsServed(w, old(St()), st, size, align, grown);
        return Err(OutOfMemory);
      }
      PlacedIsServed(w, old(St()), st, size, align, grown);
      SlotSizeIs(needed);
      mem := Stored(mem, addr + userOffset - HeaderSize(w), HeaderSize(w),
        Header(userOffset - HeaderSize(w), slotSize));
      pieces := Placed(w, st, addr, size, align).pieces;
      assert St() == Placed(w, st, addr, size, align);
      r := Ok(Slice(addr + userOffset, size));
    }

    /** `mem` points at the user bytes of live slot `p`. */
    ghost predicate IsLive(mem: Slice, p: Piece)
      reads this
    {
      p in pieces && p.Live? && mem == Slice(p.pos, p.len)
    }

    /** The header right before the pointer tells where the slot begins. */
    method LoadHeader(mem: Slice, ghost p: Piece) returns (hdr: Word)
      requires Valid() && IsLive(mem, p)
      ensures hdr == Header(p.pos - HeaderSize(w) - p.addr, Pow2(p.k))
      ensures p.addr + HeaderSize(w) <= p.pos <= p.pos + p.len + w <= p.End() <= |this.mem| && p.addr > 0
      ensures MinClass(w) < p.k < 8 * w
    {
      assert PieceOk(w, p, this.mem);
      hide Sound, Pow2;
      hdr := LoadAt(this.mem, mem.ptr - HeaderSize(w), HeaderSize(w),
        Header(p.pos - HeaderSize(w) - p.addr, Pow2(p.k)));
    }

    /** The slot's base is found from the pointer alone; the slot becomes the head of
        the free list of its size. */
    method Free(mem: Slice, ghost p: Piece)
      requires Valid() && (mem.ptr != 0 ==> IsLive(mem, p))
      modifies `mem, `pieces, `lists, frees, bigFrees
      ensures Valid()
      ensures mem.ptr == 0 ==> St() == old(St())
      ensures mem.ptr != 0 ==> p.End() <= |old(this.mem)| && p.k < |old(lists)| && St() == Freed(w, old(St()), p)
      ensures mem.ptr != 0 ==> Kept(old(this.mem), this.mem, old(pieces)) && Framed(old(St()), St(), {})
    {
      hide Sound, Pow2, Log2, Kept;
      if mem.ptr == 0 {
        return;
      }
      var hdr := LoadHeader(mem, p);
      var slotSize := hdr.slotSize;
      var offset := hdr.offset + HeaderSize(w);
      var addr := mem.ptr - offset;
      Log2OfPow2(p.k);
      FreedIsSound(w, St(), p);
      var slotClass := Log2(slotSize) - MinClass(w);
      if slotClass < SmallClasses(w) {
        this.mem := Stored(this.mem, addr + slotSize - w, w, Link(frees[slotClass]));
        frees[slotClass] := addr;
      } else {
        var pages := PagesIn(slotSize, p.k);
        var bigClass := Log2(pages);
        this.mem := Stored(this.mem, addr + slotSize - w, w, Link(bigFrees[bigClass]));
        bigFrees[bigClass] := addr;
      }
      ghost var st := Freed(w, old(St()), p);
      pieces, lists := st.pieces, st.lists;
      assert St() == st;
    }

    /** The owner of a slot writes one of its bytes. */
    method UserWrite(mem: Slice, pos: nat, value: nat, ghost p: Piece)
      requires Valid() && mem.ptr != 0 && IsLive(mem, p) && p.pos <= pos < p.pos + p.len
      modifies `mem
      ensures Valid() && pos < |old(this.mem)| && this.mem == old(this.mem)[pos := Byte(value)]
      ensures Kept(old(this.mem), this.mem, pieces - {p}) && Framed(old(St()), St(), {})
    {
      hide Sound, Pow2, Kept;
      LiveInside(w, St(), p);
      UserBytesAreSafe(w, St(), p, this.mem[pos := Byte(value)]);
      this.mem := this.mem[pos := Byte(value)];
      assert St() == old(St()).(mem := this.mem);
    }

    /** Copies a slot's contents into a slot just handed out, then frees it. */
    method TakeOver(dst: Slice, ghost n: Piece, src: Slice, ghost p: Piece)
      requires Valid() && IsLive(dst, n) && IsLive(src, p) && n != p && src.ptr != 0
      modifies `mem, `pieces, `lists, frees, bigFrees
      ensures Valid() && TookOver(old(St()), St(), n, p)
    {
      hide Sound, Pow2, Kept, CopiedTo;
      LiveInside(w, St(), p);
      LiveInside(w, St(), n);
      ghost var st := St();
      CopyIsSafe(w, st, n, p);
      mem := Copied(mem, dst.ptr, src.ptr, Min(src.len, dst.len));
      ghost var c := mem;
      assert St() == st.(mem := c);
      Free(src, p);
      CopyThenFree(st, c, St(), n, p);
    }

    method MoveTo(mem: Slice, size: nat, alignment: nat, grown: Option<nat>, ghost p: Piece) returns (r: Result)
      requires Valid() && mem.ptr != 0 && IsLive(mem, p) && IsPow2(alignment)
      requires Addressable(w, Needed(w, size, alignment)) && GrowsBeyond(grown, this.mem)
      modifies `mem, `regions, `pieces, `lists, nextAddrs, frees, bigFrees
      ensures Valid()
      ensures size == 0 ==> r == Err(InvalidInput) && St() == old(St())
      ensures size > 0 ==> Moved(w, old(St()), St(), size, alignment, grown, r, p)
    {
      hide Sound, Served, Moved, TookOver, Addressable, AlignUp, Pow2;
      LiveInside(w, St(), p);
      r := Alloc(size, alignment, grown);
      if size > 0 {
        ghost var st := St();
        MovedWhenServed(w, old(St()), st, size, alignment, grown, r, p);
        if r.Ok? {
          ghost var n := Granted(w, old(St()), size, alignment, grown);
          TakeOver(r.slice, n, mem, p);
          MovedWhenTakenOver(w, old(St()), st, St(), size, alignment, grown, r, p);
        }
      }
    }

    method Grow(mem: Slice, size: nat, alignment: nat, grown: Option<nat>, ghost p: Piece) returns (r: Result)
      requires Valid() && (mem.ptr != 0 ==> IsLive(mem, p) && alignment > 0) && IsPow2(Align(alignment))
      requires Addressable(w, Needed(w, size, Align(alignment))) && GrowsBeyond(grown, this.mem)
      modifies `mem, `regions, `pieces, `lists, nextAddrs, frees, bigFrees
      ensures Valid()
      ensures mem.ptr == 0 && size > 0 ==> Served(w, old(St()), St(), size, Align(alignment), grown, r)
      ensures mem.ptr == 0 && size == 0 ==> r == Err(InvalidInput) && St() == old(St())
      ensures mem.ptr != 0 ==> Resized(w, old(St()), St(), size, alignment, grown, r, p)
    {
      hide Sound, Served, Moved, Addressable, AlignUp, Pow2;
      if mem.ptr == 0 {
        r := Alloc(size, alignment, grown);
        return;
      }
      r := Resize(mem, size, alignment, grown, p);
    }

    method Shrink(mem: Slice, size: nat, alignment: nat, grown: Option<nat>, ghost p: Piece) returns (r: Result)
      requires Valid() && (mem.ptr != 0 ==>
        IsLive(mem, p) && IsPow2(alignment) && Addressable(w, Needed(w, size, alignment)))
      requires GrowsBeyond(grown, this.mem)
      modifies `mem, `regions, `pieces, `lists, nextAddrs, frees, bigFrees
      ensures Valid()
      ensures mem.ptr == 0 ==> r == Err(InvalidInput) && St() == old(St())
      ensures mem.ptr != 0 ==> Resized(w, old(St()), St(), size, alignment, grown, r, p)
    {
      hide Sound, Moved, Addressable, AlignUp, Pow2;
      if mem.ptr == 0 {
        return Err(InvalidInput);
      }
      r := Resize(mem, size, alignment, grown, p);
    }

    /** What growing and shrinking have in common. */
    method Resize(mem: Slice, size: nat, alignment: nat, grown: Option<nat>, ghost p: Piece) returns (r: Result)
      requires Valid() && mem.ptr != 0 && IsLive(mem, p) && IsPow2(alignment)
      requires Addressable(w, Needed(w, size, alignment)) && GrowsBeyond(grown, this.mem)
      modifies `mem, `regions, `pieces, `lists, nextAddrs, frees, bigFrees
      ensures Valid()
      ensures Resized(w, old(St()), St(), size, alignment, grown, r, p)
    {
      hide Sound, Moved, Addressable, AlignUp, Pow2;
      var hdr := LoadHeader(mem, p);
      var slotSize := hdr.slotSize;
      var offset := hdr.offset + HeaderSize(w);
      if mem.ptr % alignment == 0 && offset + size + w <= slotSize {
        RelabelIsSound(w, St(), p, size);
        pieces := pieces - {p} + {p.(len := size)};
        assert St() == old(St()).(pieces := pieces);
        return Ok(Slice(mem.ptr, size));
      }
      r := MoveTo(mem, size, alignment, grown, p);
    }
  }

  lemma LiveInside(w: nat, st: State, p: Piece)
    requires Sound(w, st) && p in st.pieces && p.Live?
    ensures 0 < p.addr <= p.pos <= p.pos + p.len <= p.End() <= |st.mem| && w <= Pow2(p.k)
  {
    assert PieceOk(w, p, st.mem);
  }

  /** Writing a slot's user bytes harms nothing else, here or outside the regions. */
  lemma UserBytesAreSafe(w: nat, st: State, p: Piece, m: Mem)
    requires Sound(w, st) && p in st.pieces && p.Live? && |m| == |st.mem|
    requires forall i :: 0 <= i < |m| && !(p.pos <= i < p.pos + p.len) ==> m[i] == st.mem[i]
    ensures Sound(w, st.(mem := m)) && Kept(st.mem, m, st.pieces - {p}) && Framed(st, st.(mem := m), {})
  {
    assert PieceOk(w, p, st.mem);
    ChangedInside(st.mem, m, st.regions, p.addr, p.End());
    hide Sound, Pow2, SlotAligned;
    var s := st.(pieces := st.pieces - {p});
    DropLive(w, st, p);
    WriteInHole(w, s, m, p.addr, p.End());
    AddLive(w, s.(mem := m), p);
    assert st.pieces - {p} + {p} == st.pieces;
  }

  lemma RelabelIsSound(w: nat, st: State, p: Piece, size: nat)
    requires Sound(w, st) && p in st.pieces && p.Live? && p.pos + size + w <= p.End()
    ensures Sound(w, st.(pieces := st.pieces - {p} + {p.(len := size)}))
  {
    assert PieceOk(w, p, st.mem);
    hide Sound, Pow2, SlotAligned;
    DropLive(w, st, p);
    AddLive(w, st.(pieces := st.pieces - {p}), p.(len := size));
  }

  function Copied(m: Mem, d: nat, s: nat, n: nat): (r: Mem)
    requires d + n <= |m| && s + n <= |m|
    ensures |r| == |m| && CopiedTo(m, s, r, d, n)
    ensures forall i :: 0 <= i < |m| && !(d <= i < d + n) ==> r[i] == m[i]
  {
    seq(|m|, i requires 0 <= i < |m| => if d <= i < d + n then m[s + (i - d)] else m[i])
  }

  lemma CopyIsSafe(w: nat, st: State, n: Piece, p: Piece)
    requires Sound(w, st) && p in st.pieces && n in st.pieces && p.Live? && n.Live? && n != p
    requires p.pos + p.len <= |st.mem| && n.pos + n.len <= |st.mem|
    ensures var m := Copied(st.mem, n.pos, p.pos, Min(p.len, n.len));
      Sound(w, st.(mem := m)) && Kept(st.mem, m, st.pieces - {n}) && Framed(st, st.(mem := m), {})
  {
    UserBytesAreSafe(w, st, n, Copied(st.mem, n.pos, p.pos, Min(p.len, n.len)));
  }

  /** Slot `n` took over from `p`: it holds `p`'s contents, and `p` is free. */
  ghost predicate TookOver(st: State, st': State, n: Piece, p: Piece)
    requires n.Live? && p.Live?
  {
    && p in Lives(st.pieces) && n in Lives(st.pieces)
    && Lives(st'.pieces) == Lives(st.pieces) - {p} && Leaks(st'.pieces) == Leaks(st.pieces)
    && Kept(st.mem, st'.mem, st.pieces - {n}) && Framed(st, st', {})
    && CopiedTo(st.mem, p.pos, st'.mem, n.pos, Min(p.len, n.len))
    && (Complete(st) ==> Complete(st'))
  }

  lemma CopyThenFree(st: State, c: Mem, st': State, n: Piece, p: Piece)
    requires p in st.pieces && n in st.pieces && p.Live? && n.Live? && n != p && n.addr <= n.pos
    requires Kept(st.mem, c, st.pieces - {n}) && Framed(st, st.(mem := c), {})
    requires CopiedTo(st.mem, p.pos, c, n.pos, Min(p.len, n.len))
    requires Kept(c, st'.mem, st.pieces) && Framed(st.(mem := c), st', {})
    requires st'.pieces == st.pieces - {p} + {FreeSlot(p.addr, p.k)}
    ensures TookOver(st, st', n, p)
  {
    hide Foreign, Filled;
    if Complete(st) { FreedFills(st.regions, st.pieces, p); }
    KeptOn(st.mem, c, st'.mem, st.pieces - {n}, st.pieces);
    FramedTwice(st, st.(mem := c), st', {});
    assert Agree(c, st'.mem, n.addr, n.pos + n.len);
  }

  /** The slot a served request gets. */
  function Granted(w: nat, st: State, size: nat, align: nat, grown: Option<nat>): Piece
    requires align > 0 && SlotRange(w, Needed(w, size, align)) && |st.lists| == 8 * w && |st.nexts| == SmallClasses(w)
  {
    NewLive(w, SlotSource(w, st, Needed(w, size, align), grown).addr, size, align)
  }

  /** A slot moved: as serving a new request, and the new slot holds the old one's
      contents, and the old one is no longer live. */
  ghost predicate Moved(w: nat, st: State, st': State, size: nat, align: nat, grown: Option<nat>, r: Result, p: Piece)
    requires IsPow2(align) && p.Live?
  {
    var needed := Needed(w, size, align);
    && SlotRange(w, needed) && |st.lists| == 8 * w && |st.nexts| == SmallClasses(w)
    && var n := Granted(w, st, size, align, grown);
    && Kept(st.mem, st'.mem, st.pieces) && Framed(st, st', SlotSource(w, st, needed, grown).fetched)
    && (Complete(st) ==> (Complete(st') <==> !Lost(SlotSource(w, st, needed, grown))))
    && if n.addr == 0 then
         r == Err(OutOfMemory) && Lives(st'.pieces) == Lives(st.pieces) && Leaks(st'.pieces) == Leaks(st.pieces)
       else
         && r == Ok(Slice(n.pos, size))
         && n !in st.pieces && Lives(st'.pieces) == Lives(st.pieces) + {n} - {p} && Inside(st'.regions, n.addr, n.End())
         && CopiedTo(st.mem, p.pos, st'.mem, n.pos, Min(p.len, size))
         && (align <= PAGE ==> n.pos % align == 0)
         && Leaks(st'.pieces) == Leaks(st.pieces) + Wasted(w, n.addr, needed)
  }

  predicate FitsInPlace(w: nat, p: Piece, size: nat, align: nat)
    requires align > 0 && p.Live? && p.addr <= p.pos
  {
    p.pos % align == 0 && p.pos - p.addr + size + w <= Pow2(p.k)
  }

  /** A slot keeps its place exactly when the address suits the alignment and the
      slot has room for the new length and its last word. */
  ghost predicate Resized(w: nat, st: State, st': State, size: nat, align: nat, grown: Option<nat>, r: Result, p: Piece)
    requires IsPow2(align) && p.Live?
  {
    p.addr <= p.pos &&
    if FitsInPlace(w, p, size, align) then
      r == Ok(Slice(p.pos, size)) && st' == st.(pieces := st.pieces - {p} + {p.(len := size)})
    else if size == 0 then r == Err(InvalidInput) && st' == st
    else Moved(w, st, st', size, align, grown, r, p)
  }

  lemma MovedWhenServed(w: nat, st: State, st': State, size: nat, align: nat, grown: Option<nat>, r: Result, p: Piece)
    requires IsPow2(align) && Served(w, st, st', size, align, grown, r) && p in st.pieces && p.Live?
    ensures SlotRange(w, Needed(w, size, align)) && |st.lists| == 8 * w && |st.nexts| == SmallClasses(w)
    ensures r.Err? ==> Moved(w, st, st', size, align, grown, r, p)
    ensures r.Ok? ==>
      var n := Granted(w, st, size, align, grown);
      n in st'.pieces && p in st'.pieces && n != p && r.slice == Slice(n.pos, n.len)
  {
    assert p in Lives(st.pieces);
    if r.Ok? { assert Granted(w, st, size, align, grown) in Lives(st'.pieces) && p in Lives(st'.pieces); }
  }

  lemma MovedWhenTakenOver(w: nat, st: State, mid: State, st': State, size: nat, align: nat, grown: Option<nat>,
      r: Result, p: Piece)
    requires IsPow2(align) && Served(w, st, mid, size, align, grown, r) && r.Ok? && p in st.pieces && p.Live?
    requires Granted(w, st, size, align, grown) != p && p.pos + p.len <= |st.mem| && p.addr <= p.pos
    requires TookOver(mid, st', Granted(w, st, size, align, grown), p)
    ensures Moved(w, st, st', size, align, grown, r, p)
  {
    var n := Granted(w, st, size, align, grown);
    assert Lives(st.pieces) <= mid.pieces - {n};
    KeptOn(st.mem, mid.mem, st'.mem, st.pieces, mid.pieces - {n});
    FramedTwice(st, mid, st', SlotSource(w, st, Needed(w, size, align), grown).fetched);
    assert Agree(st.mem, mid.mem, p.addr, p.pos + p.len);
  }

  method PagesIn(slotSize: nat, ghost k: nat) returns (n: nat)
    requires slotSize == Pow2(k) && k >= PAGE_LOG
    ensures IsPow2(n) && Log2(n) == k - PAGE_LOG
  {
    PagesTimes(0, k);
    Log2OfPow2(k - PAGE_LOG);
    n := slotSize / PAGE;
  }

  lemma FreedFills(rs: set<Region>, ps: set<Piece>, p: Piece)
    requires Filled(rs, ps, 0, 0) && p.Live?
    ensures Filled(rs, ps - {p} + {FreeSlot(p.addr, p.k)}, 0, 0)
  {
    hide Filled;
    TakenFills(rs, ps, p);
    AddedFills(rs, ps - {p}, FreeSlot(p.addr, p.k), p.addr, p.End(), 0, 0);
  }

  /** The state once live slot `p` is freed. */
  function Freed(w: nat, st: State, p: Piece): State
    requires p.Live? && w <= Pow2(p.k) && p.End() <= |st.mem| && p.k < |st.lists|
  {
    var m := Stored(st.mem, p.addr + Pow2(p.k) - w, w, Link(Head(st.lists[p.k])));
    Pushed(st.(mem := m, pieces := st.pieces - {p}), p.addr, p.k)
  }

  lemma FreedIsSound(w: nat, st: State, p: Piece)
    requires WordSize(w) && Sound(w, st) && p.Live? && p in st.pieces
    ensures w <= Pow2(p.k) && p.End() <= |st.mem| && p.k < |st.lists|
    ensures Sound(w, Freed(w, st, p)) && Kept(st.mem, Freed(w, st, p).mem, st.pieces) && Framed(st, Freed(w, st, p), {})
  {
    assert PieceOk(w, p, st.mem);
    hide Sound, Pow2, SlotAligned;
    var s := st.(pieces := st.pieces - {p});
    var m := Freed(w, st, p).mem;
    ChangedInside(st.mem, m, st.regions, p.addr, p.End());
    DropLive(w, st, p);
    WriteInHole(w, s, m, p.addr, p.End());
    AddFree(w, s.(mem := m), p.addr, p.k);
  }

  lemma SlotSizeIs(needed: nat)
    ensures CeilPow2(needed) == Pow2(CeilLog(needed))
  {
  }

  /** The pieces a large request wastes. */
  function Wasted(w: nat, addr: nat, needed: nat): set<Piece> {
    var k := CeilLog(needed);
    if k >= PAGE_LOG && needed + w > Pow2(k) then {Leaked(addr + Pow2(k), k)} else {}
  }

  /** The state once a request's header stands in the room set aside for it. */
  function Placed(w: nat, st: State, addr: nat, size: nat, align: nat): State
    requires align > 0 && HeaderSize(w) <= UserOffset(w, align) && addr + UserOffset(w, align) <= |st.mem|
  {
    var p := NewLive(w, addr, size, align);
    st.(mem := Stored(st.mem, p.pos - HeaderSize(w), HeaderSize(w), Header(p.pos - HeaderSize(w) - addr, Pow2(p.k))),
        pieces := st.pieces + Wasted(w, addr, Needed(w, size, align)) + {p})
  }

  lemma PlacedIsServed(w: nat, st: State, st': State, size: nat, align: nat, grown: Option<nat>)
    requires IsPow2(align) && size > 0 && SlotRange(w, Needed(w, size, align))
    requires |st.lists| == 8 * w && |st.nexts| == SmallClasses(w)
    requires var needed := Needed(w, size, align);
      var source := SlotSource(w, st, needed, grown);
      source.addr != 0 && SetAside(w, st, st', source, TakenLog(w, needed))
    ensures var addr := SlotSource(w, st, Needed(w, size, align), grown).addr;
      && HeaderSize(w) <= UserOffset(w, align) && addr + UserOffset(w, align) <= |st'.mem|
      && Sound(w, Placed(w, st', addr, size, align))
      && Served(w, st, Placed(w, st', addr, size, align), size, align, grown,
        Ok(Slice(addr + UserOffset(w, align), size)))
  {
    hide Sound, Hole, AlignUp, Pow2, CeilPow2, Log2, CeilLog, SlotAligned, SlotSource, Wasted, TakenLog, Kept, Filled,
      Foreign;
    var needed := Needed(w, size, align);
    var Source(addr, fetched) := SlotSource(w, st, needed, grown);
    var p := NewLive(w, addr, size, align);
    PlacedIsSound(w, st', addr, size, align);
    KeptOn(st.mem, st'.mem, Placed(w, st', addr, size, align).mem, st.pieces, st'.pieces);
    FramedTwice(st, st', Placed(w, st', addr, size, align), fetched);
    UserAligned(w, addr, size, align);
    PiecesPlaced(w, st.pieces, st'.pieces, addr, needed, p);
    if Complete(st) { PlacedFills(w, st'.regions, st'.pieces, addr, size, align); }
  }

  /** The slot and the part given up are all that was set aside. */
  lemma PlacedFills(w: nat, rs: set<Region>, ps: set<Piece>, addr: nat, size: nat, align: nat)
    requires WordSize(w) && align > 0
    requires Filled(rs, ps, addr, addr + Pow2(TakenLog(w, Needed(w, size, align))))
    ensures Filled(rs, ps + Wasted(w, addr, Needed(w, size, align)) + {NewLive(w, addr, size, align)}, 0, 0)
  {
    hide Filled, CeilLog, TakenLog, AlignUp;
    var needed, p := Needed(w, size, align), NewLive(w, addr, size, align);
    var k := CeilLog(needed);
    if k >= PAGE_LOG { TakenIsSlotOrDouble(w, needed); } else { SmallIsTaken(w, needed); }
    if TakenLog(w, needed) == k {
      assert ps + {} == ps;
    } else {
      AddedFills(rs, ps, Leaked(addr + Pow2(k), k), addr, addr + Pow2(k + 1), addr, addr + Pow2(k));
    }
    AddedFills(rs, ps + Wasted(w, addr, needed), p, addr, addr + Pow2(k), 0, 0);
  }

  lemma PlacedIsSound(w: nat, st: State, addr: nat, size: nat, align: nat)
    requires WordSize(w) && IsPow2(align) && SlotRange(w, Needed(w, size, align)) && Sound(w, st)
    requires var j := TakenLog(w, Needed(w, size, align)); Hole(st, addr, addr + Pow2(j)) && SlotAligned(addr, j)
    ensures HeaderSize(w) <= UserOffset(w, align) && addr + UserOffset(w, align) <= |st.mem|
    ensures var st' := Placed(w, st, addr, size, align);
      && Sound(w, st') && Kept(st.mem, st'.mem, st.pieces) && Framed(st, st', {})
      && Inside(st'.regions, addr, NewLive(w, addr, size, align).End()) && NewLive(w, addr, size, align) !in st.pieces
    ensures SlotAligned(addr, CeilLog(Needed(w, size, align)))
  {
    hide Sound, Hole, AlignUp, Pow2, CeilPow2, Log2, CeilLog, SlotAligned, Wasted, TakenLog, Kept;
    var needed := Needed(w, size, align);
    var p, s := NewLive(w, addr, size, align), Reserved(w, st, addr, needed);
    AlignUpIsLeastMultiple(HeaderSize(w), align);
    CeilLogBounds(needed);
    WasteIsApart(w, st, addr, needed);
    HeaderIsPut(w, s, p);
    KeptOnFewer(st.mem, Placed(w, st, addr, size, align).mem, st.pieces, s.pieces);
  }

  lemma KeptOnFewer(m: Mem, n: Mem, ps: set<Piece>, qs: set<Piece>)
    requires Kept(m, n, qs) && ps <= qs
    ensures Kept(m, n, ps)
  {
  }

  lemma PiecesPlaced(w: nat, before: set<Piece>, between: set<Piece>, addr: nat, needed: nat, p: Piece)
    requires Lives(between) == Lives(before) && Leaks(between) == Leaks(before) && p.Live?
    requires p !in between
    ensures var after := between + Wasted(w, addr, needed) + {p};
      && p !in before
      && Lives(after) == Lives(before) + {p} && Leaks(after) == Leaks(before) + Wasted(w, addr, needed)
  {
    assert p in before ==> p in Lives(before);
    assert p in Lives(between) ==> p in between;
  }

  /** Room with the part given up marked as such. */
  function Reserved(w: nat, st: State, addr: nat, needed: nat): State {
    st.(pieces := st.pieces + Wasted(w, addr, needed))
  }

  lemma WasteIsApart(w: nat, st: State, addr: nat, needed: nat)
    requires WordSize(w) && Sound(w, st) && Hole(st, addr, addr + Pow2(TakenLog(w, needed))) &&
      SlotAligned(addr, TakenLog(w, needed))
    ensures var s := Reserved(w, st, addr, needed);
      Sound(w, s) && Hole(s, addr, addr + Pow2(CeilLog(needed))) && SlotAligned(addr, CeilLog(needed))
  {
    hide Sound, Hole, CeilLog, TakenLog;
    var k := CeilLog(needed);
    if k >= PAGE_LOG { TakenIsSlotOrDouble(w, needed); } else { SmallIsTaken(w, needed); }
    if TakenLog(w, needed) == k {
      assert st.pieces + {} == st.pieces;
    } else {
      Leak(w, st, addr, k);
    }
  }

  /** A header in the hole makes it a live slot. */
  lemma HeaderIsPut(w: nat, st: State, p: Piece)
    requires WordSize(w) && Sound(w, st) && p.Live? && Hole(st, p.addr, p.End()) && SlotAligned(p.addr, p.k) &&
      MinClass(w) < p.k < 8 * w
    requires p.addr + HeaderSize(w) <= p.pos && p.pos + p.len + w <= p.End()
    ensures p.pos <= |st.mem|
    ensures var m := Stored(st.mem, p.pos - HeaderSize(w), HeaderSize(w),
      Header(p.pos - HeaderSize(w) - p.addr, Pow2(p.k)));
      && Kept(st.mem, m, st.pieces) && Sound(w, st.(mem := m, pieces := st.pieces + {p})) && p !in st.pieces
      && Foreign(st.mem, m, st.regions) && Inside(st.regions, p.addr, p.End())
  {
    hide ListOk, TailsOk, Disjoint, Pow2;
    var m := Stored(st.mem, p.pos - HeaderSize(w), HeaderSize(w), Header(p.pos - HeaderSize(w) - p.addr, Pow2(p.k)));
    WriteInHole(w, st, m, p.addr, p.End());
    ChangedInside(st.mem, m, st.regions, p.addr, p.End());
    assert PieceOk(w, p, m);
    AddLive(w, st.(mem := m), p);
  }

  lemma KeptOn(m: Mem, n: Mem, o: Mem, ps: set<Piece>, qs: set<Piece>)
    requires Kept(m, n, ps) && Kept(n, o, qs) && Lives(ps) <= qs
    ensures Kept(m, o, ps)
  {
    forall p | p in ps && p.Live? ensures Agree(m, o, p.addr, p.pos + p.len) {
      assert p in Lives(ps) && Agree(m, n, p.addr, p.pos + p.len) && Agree(n, o, p.addr, p.pos + p.len);
    }
  }

  lemma UserAligned(w: nat, addr: nat, size: nat, align: nat)
    requires IsPow2(align) && size > 0 && WordSize(w) && SlotAligned(addr, CeilLog(Needed(w, size, align)))
    ensures var pos := addr + UserOffset(w, align);
      (align <= PAGE ==> pos % align == 0) && (pos % align == 0 <==> addr % align == 0)
  {
    hide AlignUp, CeilPow2, CeilLog, Pow2, SlotAligned;
    var o, needed := UserOffset(w, align), Needed(w, size, align);
    AlignUpIsLeastMultiple(HeaderSize(w), align);
    SameRemainder(addr, o, align);
    CeilLogBounds(needed);
    AtLeastDivisor(o, align);
    if align <= PAGE { SlotAddressAligned(addr, CeilLog(needed), align); }
  }

  /** A freed slot is the next one handed out for a request of its class, whatever
      `memory.grow` would answer. */
  lemma FreedIsReused(w: nat, st: State, p: Piece, st': State, size: nat, align: nat, grown: Option<nat>, r: Result)
    requires WordSize(w) && Sound(w, st) && p in st.pieces && p.Live? && IsPow2(align)
    requires p.k < |st.lists| && w <= Pow2(p.k) && p.End() <= |st.mem|
    requires var needed := Needed(w, size, align);
      if CeilLog(needed) < PAGE_LOG then p.k == CeilLog(needed) else p.k == TakenLog(w, needed)
    requires Served(w, Freed(w, st, p), st', size, align, grown, r)
    ensures r == Ok(Slice(p.addr + UserOffset(w, align), size))
  {
    hide Framed, Kept, CeilLog, TakenLog, Pow2, AlignUp;
    assert PieceOk(w, p, st.mem);
    assert Freed(w, st, p).lists[p.k][0] == p.addr;
  }

  /** Where the slot of a request comes from, told by the pieces there were: a free slot
      of its size if there is any; else, for a small request, the tail of its class or
      else a free page; else what `memory.grow` returns. Without any of these, and only
      then, there is no slot. */
  lemma ServedInOrder(w: nat, st: State, st': State, size: nat, align: nat, grown: Option<nat>, r: Result)
    requires WordSize(w) && Sound(w, st) && IsPow2(align) && Served(w, st, st', size, align, grown, r)
    ensures
      var needed := Needed(w, size, align);
      var small := CeilLog(needed) < PAGE_LOG;
      var k, c := if small then CeilLog(needed) else TakenLog(w, needed), CeilLog(needed) - MinClass(w);
      var addr := if r.Ok? then r.slice.ptr - UserOffset(w, align) else 0;
      if SlotFree(st.pieces, k) then r.Ok? && FreeSlot(addr, k) in st.pieces
      else if small && TailLeft(st.pieces, c) then r.Ok? && Tail(addr, c) in st.pieces
      else if small && SlotFree(st.pieces, PAGE_LOG) then r.Ok? && FreeSlot(addr, PAGE_LOG) in st.pieces
      else if grown.Some? && grown.value > 0 then r.Ok? && addr == grown.value * PAGE
      else r == Err(OutOfMemory)
  {
    hide Framed, Kept, CeilLog, TakenLog, Pow2, AlignUp, Sound;
    var needed := Needed(w, size, align);
    var k := if CeilLog(needed) < PAGE_LOG then CeilLog(needed) else TakenLog(w, needed);
    FreeIsListed(w, st, k);
    if CeilLog(needed) < PAGE_LOG {
      TailIsNext(w, st, CeilLog(needed) - MinClass(w));
      FreeIsListed(w, st, PAGE_LOG);
    }
  }

  /** Conservation: whatever a request comes to, every byte `memory.grow` ever returned
      stays in a slot or in a tail, unless growing is of no avail because it yields the
      page at the null pointer. */
  lemma NothingIsLost(w: nat, st: State, st': State, size: nat, align: nat, grown: Option<nat>, r: Result)
    requires WordSize(w) && Sound(w, st) && Complete(st)
    requires IsPow2(align) && Served(w, st, st', size, align, grown, r)
    ensures Complete(st') <==> !(r == Err(OutOfMemory) && grown == Some(0))
  {
    hide Framed, Kept, CeilLog, TakenLog, Pow2, AlignUp, Sound, Filled;
    LostIsZero(w, st, Needed(w, size, align), grown);
  }

  /** Resizing a slot and freeing it lose nothing either. */
  lemma NothingIsLostLater(w: nat, st: State, st': State, size: nat, align: nat, grown: Option<nat>, r: Result,
      p: Piece)
    requires WordSize(w) && Sound(w, st) && Complete(st) && p in st.pieces && p.Live?
    ensures w <= Pow2(p.k) && p.End() <= |st.mem| && p.k < |st.lists| && Complete(Freed(w, st, p))
    ensures IsPow2(align) && Resized(w, st, st', size, align, grown, r, p) ==>
      (Complete(st') <==> !(r == Err(OutOfMemory) && grown == Some(0)))
  {
    assert PieceOk(w, p, st.mem);
    hide Framed, Kept, CeilLog, TakenLog, Pow2, AlignUp, Sound, Filled;
    FreedFills(st.regions, st.pieces, p);
    if IsPow2(align) && Resized(w, st, st', size, align, grown, r, p) {
      if FitsInPlace(w, p, size, align) {
        TakenFills(st.regions, st.pieces, p);
        AddedFills(st.regions, st.pieces - {p}, p.(len := size), p.addr, p.End(), 0, 0);
      } else if size > 0 {
        LostIsZero(w, st, Needed(w, size, align), grown);
      }
    }
  }

  lemma LostIsZero(w: nat, st: State, needed: nat, grown: Option<nat>)
    requires WordSize(w) && Sound(w, st) && SlotRange(w, needed)
    ensures |st.lists| == 8 * w && |st.nexts| == SmallClasses(w)
    ensures var source := SlotSource(w, st, needed, grown); Lost(source) <==> source.addr == 0 && grown == Some(0)
  {
    hide Framed, Kept, CeilLog, TakenLog, Pow2, Sound;
    SoundLists(w, st);
    var k := if CeilLog(needed) < PAGE_LOG then CeilLog(needed) else TakenLog(w, needed);
    FreeIsListed(w, st, k);
    if CeilLog(needed) < PAGE_LOG { FreeIsListed(w, st, PAGE_LOG); }
  }

  lemma SoundLists(w: nat, st: State)
    requires Sound(w, st)
    ensures |st.lists| == 8 * w && |st.nexts| == SmallClasses(w)
  {
  }

  ghost predicate SlotFree(pieces: set<Piece>, k: nat) {
    exists p :: p in pieces && p.FreeSlot? && p.k == k
  }

  ghost predicate TailLeft(pieces: set<Piece>, c: nat) {
    exists p :: p in pieces && p.Tail? && p.c == c
  }

  lemma FreeIsListed(w: nat, st: State, k: nat)
    requires Sound(w, st) && k < |st.lists|
    ensures SlotFree(st.pieces, k) <==> st.lists[k] != []
    ensures st.lists[k] != [] ==> FreeSlot(st.lists[k][0], k) in st.pieces && st.lists[k][0] > 0
  {
    hide HoldsWord, Pow2, Disjoint, Housed, TailsOk;
    assert ListOk(w, st, k);
    if st.lists[k] != [] {
      assert Entry(w, st, st.lists[k], 0, k);
      assert PieceOk(w, FreeSlot(st.lists[k][0], k), st.mem);
    }
  }

  lemma TailIsNext(w: nat, st: State, c: nat)
    requires Sound(w, st) && c < |st.nexts|
    ensures TailLeft(st.pieces, c) <==> st.nexts[c] % PAGE != 0
    ensures st.nexts[c] % PAGE != 0 ==> Tail(st.nexts[c], c) in st.pieces
  {
    hide HoldsWord, Pow2, Disjoint, Housed, ListOk;
    forall p | p in st.pieces && p.Tail? && p.c == c ensures st.nexts[c] % PAGE != 0 {
      assert PieceOk(w, p, st.mem);
    }
  }

  /** A slot keeps its place exactly when the address suits the alignment and the slot is
      still sound with the new length. */
  lemma FitsIsSound(w: nat, p: Piece, size: nat, align: nat, m: Mem)
    requires PieceOk(w, p, m) && p.Live? && align > 0
    ensures p.addr <= p.pos
    ensures FitsInPlace(w, p, size, align) <==> p.pos % align == 0 && PieceOk(w, p.(len := size), m)
  {
    hide HoldsWord, Pow2, SlotAligned;
  }

  /** No smaller slot has room for a header, an aligned address behind it, the bytes and
      the last word. */
  lemma SlotIsLeast(w: nat, addr: nat, size: nat, align: nat, k: nat, offset: nat)
    requires WordSize(w) && IsPow2(align)
    requires HeaderSize(w) <= offset && offset % align == 0 && offset + size + w <= Pow2(k)
    ensures UserOffset(w, align) <= offset && NewLive(w, addr, size, align).k <= k
  {
    hide AlignUp, Pow2, CeilLog;
    AlignUpIsLeastMultiple(HeaderSize(w), align);
    LeastMultiple(HeaderSize(w), align, UserOffset(w, align), offset);
    var n := CeilLog(Needed(w, size, align));
    CeilLogBounds(Needed(w, size, align));
    if k < n { Pow2Monotone(k, n - 1); }
  }

  /** User addresses are aligned in every slot a request can get exactly when the
      alignment is at most a page. */
  lemma AlignmentHonoured(w: nat, size: nat, align: nat)
    requires WordSize(w) && size > 0 && IsPow2(align)
    ensures align <= PAGE <==> forall addr: nat :: Suits(w, addr, size, align) ==> Aligns(w, addr, align)
  {
    if align <= PAGE {
      forall addr: nat | Suits(w, addr, size, align) ensures Aligns(w, addr, align) {
        UserAligned(w, addr, size, align);
      }
    } else {
      FirstPageMisaligned(w, size, align);
      assert Suits(w, PAGE, size, align) && !Aligns(w, PAGE, align);
    }
  }

  /** A slot at `addr` may serve such a request. */
  predicate Suits(w: nat, addr: nat, size: nat, align: nat)
    requires align > 0
  {
    SlotAligned(addr, CeilLog(Needed(w, size, align)))
  }

  predicate Aligns(w: nat, addr: nat, align: nat)
    requires align > 0
  {
    (addr + UserOffset(w, align)) % align == 0
  }

  lemma FirstPageMisaligned(w: nat, size: nat, align: nat)
    requires WordSize(w) && IsPow2(align) && align > PAGE
    ensures SlotAligned(PAGE, CeilLog(Needed(w, size, align))) && (PAGE + UserOffset(w, align)) % align != 0
  {
    hide AlignUp, CeilLog, Pow2;
    PageAligned(PAGE);
    var k := CeilLog(Needed(w, size, align));
    AlignedWeaken(PAGE, PAGE_LOG, if k <= PAGE_LOG then k else PAGE_LOG);
    AlignUpIsLeastMultiple(HeaderSize(w), align);
    SameRemainder(PAGE, UserOffset(w, align), align);
  }

  /** The first request of any size to a new allocator misses every alignment beyond a
      page when `memory.grow` returns the page after the one at zero. */
  lemma AlignmentBeyondAPage(w: nat, st: State, st': State, size: nat, align: nat, r: Result)
    requires WordSize(w) && IsPow2(align) && align > PAGE && size > 0
    requires forall k :: 0 <= k < |st.lists| ==> st.lists[k] == []
    requires Served(w, st, st', size, align, Some(1), r)
    ensures r == Ok(Slice(PAGE + UserOffset(w, align), size)) && r.slice.ptr % align != 0
  {
    hide AlignUp, CeilLog, Pow2, Framed, Kept, TakenLog;
    FirstPageMisaligned(w, size, align);
    var needed := Needed(w, size, align);
    AlignUpIsLeastMultiple(HeaderSize(w), align);
    AtLeastDivisor(UserOffset(w, align), align);
    CeilLogBounds(needed);
    PageAligned(0);
    if CeilLog(needed) < PAGE_LOG { Pow2Monotone(CeilLog(needed), PAGE_LOG); }
  }

  /** So it is in the program that makes this request to a new allocator. */
  method FirstRequest(w: nat, mem: Mem, size: nat, align: nat) returns (r: Result)
    requires WordSize(w) && |mem| <= PAGE && size > 0 && IsPow2(align) && align > PAGE
    requires Addressable(w, Needed(w, size, align))
    ensures r == Ok(Slice(PAGE + UserOffset(w, align), size)) && r.slice.ptr % align != 0
  {
    hide Served, Sound, AlignUp, Addressable, IsPow2;
    var a := new WasmAllocator(w, mem);
    ghost var st := a.St();
    r := a.Alloc(size, align, Some(1));
    AlignmentBeyondAPage(w, st, a.St(), size, align, r);
  }

  lemma SlotAddressAligned(addr: nat, k: nat, align: nat)
    requires SlotAligned(addr, k) && IsPow2(align) && align <= PAGE && align <= Pow2(k)
    ensures addr % align == 0
  {
    var j, n := Log2(align), if k <= PAGE_LOG then k else PAGE_LOG;
    PageAligned(0);
    if j > n { Pow2Monotone(n + 1, j); }
    AlignedWeaken(addr, n, j);
    AlignedIsMultiple(addr, j);
  }

  lemma AtLeastDivisor(o: nat, m: nat)
    requires m > 0 && o > 0 && o % m == 0
    ensures o >= m
  {
    MulAtLeast(o / m, m);
  }

  lemma NothingIsServed(w: nat, st: State, st': State, size: nat, align: nat, grown: Option<nat>)
    requires IsPow2(align) && SlotRange(w, Needed(w, size, align))
    requires |st.lists| == 8 * w && |st.nexts| == SmallClasses(w)
    requires var needed := Needed(w, size, align);
      var source := SlotSource(w, st, needed, grown);
      source.addr == 0 && SetAside(w, st, st', source, TakenLog(w, needed))
    ensures Sound(w, st') && Served(w, st, st', size, align, grown, Err(OutOfMemory))
  {
    hide Sound, Kept, Foreign, Filled, Pow2, AlignUp, CeilLog, TakenLog;
    var source := SlotSource(w, st, Needed(w, size, align), grown);
    if Lost(source) { ZeroIsMissing(w, st'); }
  }

  /** No piece has a byte at the null pointer. */
  lemma ZeroIsMissing(w: nat, st: State)
    requires Sound(w, st) && Covered(st.regions, 0)
    ensures !Complete(st)
  {
    hide ListOk, Disjoint, Housed, TailsOk;
    assert forall p :: p in st.pieces ==> PieceOk(w, p, st.mem);
    assert !Used(st.pieces, 0);
  }

  lemma StartedIsSetAside(w: nat, st: State, st': State, source: Source, c: nat)
    requires WordSize(w) && SetAside(w, st, st', source, PAGE_LOG) && source.addr % PAGE == 0
    requires c < |st'.nexts| && st'.nexts[c] % PAGE == 0
    ensures var a := source.addr;
      SetAside(w, st, if a != 0 then Started(w, st', c, a) else st', source, MinClass(w) + c)
  {
    var a := source.addr;
    if a != 0 {
      hide Filled;
      PageAligned(0);
      StartPage(w, st', c, a);
      StartedFills(w, st, st', source, c);
    }
  }

  lemma StartedFills(w: nat, st: State, st': State, source: Source, c: nat)
    requires WordSize(w) && Leaves(st, st', source, PAGE_LOG) && source.addr != 0 && source.addr % PAGE == 0
    requires c < |st'.nexts| && c < SmallClasses(w)
    ensures Leaves(st, Started(w, st', c, source.addr), source, MinClass(w) + c)
  {
    hide Filled, Pow2;
    var a, k := source.addr, MinClass(w) + c;
    if Complete(st) {
      PageAligned(0);
      Pow2Monotone(k, PAGE_LOG);
      AddedFills(st'.regions, st'.pieces, Tail(a + Pow2(k), c), a, a + Pow2(PAGE_LOG), a, a + Pow2(k));
    }
  }

  lemma CarvedIsSetAside(w: nat, st: State, c: nat)
    requires Sound(w, st) && WordSize(w) && c < |st.nexts| && st.nexts[c] % PAGE != 0
    ensures SetAside(w, st, Carved(w, st, c), Source(st.nexts[c], {}), MinClass(w) + c)
  {
    CarveTail(w, st, c);
    hide Filled;
    if Complete(st) { CarvedFills(w, st, c); }
  }

  lemma SlotOnPage(a: nat, k: nat)
    requires SlotAligned(a, k) && k >= PAGE_LOG
    ensures a % PAGE == 0
  {
    PageAligned(a);
  }

  lemma TakenIsSetAside(w: nat, st: State, k: nat)
    requires Sound(w, st) && k < |st.lists| && st.lists[k] != []
    ensures SetAside(w, st, Taken(st, k), Source(st.lists[k][0], {}), k)
  {
    TakeFree(w, st, k);
    hide Filled;
    if Complete(st) { TakenFills(st.regions, st.pieces, FreeSlot(st.lists[k][0], k)); }
  }

  lemma NothingIsSetAside(w: nat, st: State, k: nat)
    requires Sound(w, st)
    ensures SetAside(w, st, st, Source(0, {}), k)
  {
  }

  lemma GrownIsSetAside(w: nat, st: State, a: nat, k: nat)
    requires Sound(w, st) && |st.mem| <= a && a % PAGE == 0 && k >= PAGE_LOG
    ensures var r := Region(a, a + Pow2(k));
      var st' := st.(mem := Extended(st.mem, r.hi), regions := st.regions + {r});
      Sound(w, st') && SetAside(w, st, st', Source(a, {r}), k)
  {
    hide ListOk, Pow2, Filled;
    assert forall p :: p in st.pieces ==> PieceOk(w, p, st.mem);
    WriteInHole(w, st, Extended(st.mem, a + Pow2(k)), |st.mem|, a + Pow2(k));
    var grown := st.(mem := Extended(st.mem, a + Pow2(k)));
    RegionAdded(w, grown, Region(a, a + Pow2(k)));
    PageAligned(a);
    if Complete(st) { RegionFills(st.regions, st.pieces, Region(a, a + Pow2(k))); }
  }

  lemma RegionAdded(w: nat, st: State, r: Region)
    requires Sound(w, st) && r.hi <= |st.mem|
    ensures Sound(w, st.(regions := st.regions + {r}))
  {
    hide PieceOk, Disjoint, Pow2, HoldsWord;
    var st' := st.(regions := st.regions + {r});
    ListsKeep(w, st, st');
  }

  method NextPow2Word(n: nat, w: nat) returns (r: nat)
    requires WordSize(w) && CeilLog(n) < 8 * w
    ensures r == CeilPow2(n)
  {
    CeilLogBounds(n);
    Pow2Monotone(CeilLog(n), 8 * w - 1);
    r := NextPow2(n, 8 * w);
  }

  method LoadAt(m: Mem, pos: nat, n: nat, ghost v: Word) returns (r: Word)
    requires n > 0 && HoldsWord(m, pos, n, v)
    ensures r == v
  {
    assert m[pos] == Part(v, 0);
    r := m[pos].word;
  }

  function Extended(m: Mem, size: nat): (n: Mem)
    requires |m| <= size
    ensures |n| == size && m <= n
  {
    m + seq(size - |m|, _ => Byte(0))
  }

  /** A list head is zero only when the list is empty. */
  lemma HeadIsZero(w: nat, st: State, k: nat)
    requires Sound(w, st) && k < |st.lists|
    ensures Head(st.lists[k]) == 0 <==> st.lists[k] == []
  {
    if st.lists[k] != [] { assert ListOk(w, st, k) && Entry(w, st, st.lists[k], 0, k); }
  }
}
