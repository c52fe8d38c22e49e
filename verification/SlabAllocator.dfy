/** `cu_SlabAllocator`: runs of equal slots, found by first fit over slab bitmaps. */
module SlabAllocators {
  import opened Allocation
  import opened Bits
  import opened Options
  import opened Slots
  import opened Utility
  import opened Memory
  import opened Bitmaps
  import opened SlabRuns

  const DEFAULT_SIZE: nat := 4096

  /** What stands before each user slice: its slab and the run it owns. */
  datatype Header = Header(slab: Slab, index: nat, count: nat)

  datatype Slice = Slice(data: array<Cell<Header>>, ptr: nat, len: nat) | Null

  datatype Result = Ok(slice: Slice) | Err(error: Error)

  /** A slab's abstract state: the address of its data, its bitmap, its live runs
      and its bytes. */
  datatype View = View(base: nat, bits: seq<bool>, runs: set<Run>, mem: seq<Cell<Header>>)

  ghost predicate HeadersIntact(m: seq<Cell<Header>>, slab: Slab, runs: set<Run>) {
    forall r :: r in runs ==>
      r.pos >= HEADER && HoldsWord(m, r.pos - HEADER, HEADER, Header(slab, r.index, r.count))
  }

  /** Header and user bytes of every listed run are the same in both memories. */
  ghost predicate Untouched(m: seq<Cell<Header>>, n: seq<Cell<Header>>, runs: set<Run>) {
    forall r :: r in runs ==> SameOn(m, n, r.pos - HEADER, r.pos + r.len)
  }

  /** Each run with its header and user bytes lies in its own slots, runs are
      disjoint, and the bitmap is exactly their union. */
  ghost predicate Sound(slab: Slab, s: nat, v: View) {
    && |v.mem| == Off(|v.bits|, s)
    && RunsOk(v.runs, s, |v.bits|) && BitsAre(v.bits, v.runs)
    && HeadersIntact(v.mem, slab, v.runs)
  }

  class Slab {
    var next: Slab?
    const used: Bitmap
    const slabCount: nat
    var freeCount: nat
    const base: nat
    const data: array<Cell<Header>>

    constructor (count: nat, s: nat, base: nat)
      requires count > 0
      ensures next == null && fresh(used) && fresh(used.bits) && fresh(data) && this.base == base
      ensures data[..] == NewView(base, count, s).mem
      ensures Ok(s, NewView(base, count, s))
    {
      next := null;
      used := new Bitmap(count);
      slabCount := count;
      freeCount := count;
      this.base := base;
      var size := SlotOffset(count, s);
      data := new Cell<Header>[size](_ => Byte(0));
      new;
      CountAllClear(used.Used(), count);
      assert data[..] == NewView(base, count, s).mem;
    }

    ghost predicate Ok(s: nat, v: View)
      reads this`freeCount, used.bits, data
    {
      && used.Valid() && used.bitCount == slabCount == |v.bits| && used.Used() == v.bits
      && freeCount == CountClear(v.bits, |v.bits|)
      && base == v.base && data[..] == v.mem
      && Sound(this, s, v)
    }

    /** The lowest run of `need` clear bits. */
    method FindRun(need: nat, ghost bits: seq<bool>) returns (r: Option<nat>)
      requires used.Valid() && used.bitCount == slabCount && used.Used() == bits && need > 0
      ensures r == FirstRun(bits, need, 0)
    {
      var run := 0;
      for i := 0 to slabCount
        invariant run <= i && run < need
        invariant forall j :: i - run <= j < i ==> !bits[j]
        invariant i - run == 0 || bits[i - run - 1]
        invariant forall j: nat :: j + need <= i ==> !ClearRun(bits, j, need)
      {
        var b := used.Get(i);
        if !b {
          run := run + 1;
        } else {
          run := 0;
        }
        if run == need {
          FirstRunIs(bits, need, 0, i + 1 - need);
          return Some(i + 1 - need);
        }
      }
      assert FirstRun(bits, need, 0).Some? ==> ClearRun(bits, FirstRun(bits, need, 0).value, need);
      return None;
    }

    /** The lowest run, looked for only where enough slots are free. */
    method Probe(need: nat, ghost s: nat, ghost v: View) returns (pos: Option<nat>)
      requires Ok(s, v) && need > 0
      ensures pos == FirstRun(v.bits, need, 0)
    {
      if freeCount >= need {
        pos := FindRun(need, v.bits);
      } else {
        FewFree(v.bits, need);
        pos := None;
      }
    }

    /** Marks a range of slots. */
    method Mark(lo: nat, n: nat, v: bool, ghost bits: seq<bool>)
      requires used.Valid() && used.Used() == bits && lo + n <= |bits|
      modifies used.bits
      ensures used.Used() == SetRange(bits, lo, lo + n, v)
    {
      for i := 0 to n
        invariant used.Used() == SetRange(bits, lo, lo + i, v)
      {
        if v {
          used.Set(lo + i);
        } else {
          used.Clear(lo + i);
        }
      }
    }

    /** Hands out the run of `need` slots at `index`. */
    method Take(index: nat, need: nat, size: nat, align: nat, s: nat, ghost v: View)
      returns (r: Slice, ghost w: View)
      requires Ok(s, v) && s > 0 && IsPow2(align) && need == DivCeil(align - 1 + size + HEADER, s)
      requires need > 0 && ClearRun(v.bits, index, need)
      modifies this`freeCount, used.bits, data
      ensures Ok(s, w) && Taken(v, w, NewRun(v.base, index, need, s, size, align))
      ensures r == Slice(data, NewRun(v.base, index, need, s, size, align).pos, size)
    {
      hide IsPow2, CountClear, SetRange, Bitmap.Used, Off, DivCeil, AlignUp;
      ghost var run := NewRun(v.base, index, need, s, size, align);
      NewRunFits(v.base, index, need, s, size, align, slabCount);
      ClearRunIsCounted(v.bits, index, need, |v.bits|);
      CountSetRange(v.bits, index, index + need, true, |v.bits|);
      Mark(index, need, true, v.bits);
      freeCount := freeCount - need;
      var start := SlotOffset(index, s);
      var userPos := UserPos(base, start, align);
      w := PutHeader(index, need, userPos, s, v, run);
      r := Slice(data, userPos, size);
    }

    method PutHeader(index: nat, need: nat, userPos: nat, s: nat, ghost v: View, ghost run: Run) returns (ghost w: View)
      requires Sound(this, s, v) && data[..] == v.mem
      requires Shaped(run, s, |v.bits|) && ClearRun(v.bits, run.index, run.count)
      requires index == run.index && need == run.count && userPos == run.pos && HEADER <= run.pos &&
        run.pos + run.len <= |v.mem|
      modifies data
      ensures Sound(this, s, w) && Taken(v, w, run) && data[..] == w.mem
    {
      StoreWord(data, userPos - HEADER, HEADER, Header(this, index, need));
      w := View(v.base, SetRange(v.bits, run.index, run.index + run.count, true), v.runs + {run}, data[..]);
      TakeIsSound(this, s, v, w, run);
    }

    /** Gives slots back, keeping the free count in step with the bitmap. */
    method Unmark(lo: nat, n: nat, ghost bits: seq<bool>)
      requires used.Valid() && used.Used() == bits && SetRun(bits, lo, n)
      requires freeCount == CountClear(bits, |bits|)
      modifies this`freeCount, used.bits
      ensures used.Used() == SetRange(bits, lo, lo + n, false)
      ensures freeCount == CountClear(SetRange(bits, lo, lo + n, false), |bits|)
    {
      hide CountClear, SetRange;
      UnmarkedCount(bits, lo, n);
      Mark(lo, n, false, bits);
      freeCount := freeCount + n;
    }

    /** Gives a whole run back. */
    method Release(index: nat, count: nat, ghost s: nat, ghost v: View, ghost run: Run) returns (ghost w: View)
      requires Ok(s, v) && run in v.runs && index == run.index && count == run.count
      modifies this`freeCount, used.bits
      ensures run.index + run.count <= |v.bits| && Ok(s, w) && w == Released(v, run)
    {
      w := Released(v, run);
      CutIsSound(this, s, v, w, run, run.(count := 0), {});
      Unmark(index, count, v.bits);
    }

    /** Gives the slots of a run from `need` on back. */
    method Trim(index: nat, count: nat, need: nat, headerPos: nat, ghost s: nat, ghost v: View, ghost run: Run,
        ghost q: Run) returns (ghost w: View)
      requires Ok(s, v) && run in v.runs && index == run.index && count == run.count && headerPos + HEADER == run.pos
      requires 0 < need < count && Shaped(q, s, |v.bits|)
      requires q == run.(count := need, len := q.len)
      modifies this`freeCount, used.bits, data
      ensures Ok(s, w) && Trimmed(v, w, run, q)
    {
      CutRun(v.bits, v.runs, s, run, q, {q});
      Unmark(index + need, count - need, v.bits);
      w := PutShorterHeader(index, need, headerPos, s, v, run, q);
    }

    lemma Inside(s: nat, v: View, run: Run)
      requires Ok(s, v) && run in v.runs
      ensures data[..] == v.mem && HEADER <= run.pos && run.pos + run.len <= |v.mem|
    {
      RunInside(v, s, run);
    }

    /** A run may take any length its slots have room for. */
    lemma Relabelled(s: nat, v: View, run: Run, q: Run)
      requires Ok(s, v) && run in v.runs && q == run.(len := q.len) && Shaped(q, s, |v.bits|)
      ensures run.index + run.count <= |v.bits|
      ensures var w := v.(runs := v.runs - {run} + {q}); Ok(s, w) && Trimmed(v, w, run, q)
    {
      var w := v.(runs := v.runs - {run} + {q});
      assert v.bits == SetRange(v.bits, run.index + run.count, run.index + run.count, false);
      CutIsSound(this, s, v, w, run, q, {q});
    }

    /** Writes into a run's user bytes. */
    static method Poke(ghost slab: Slab, data: array<Cell<Header>>, pos: nat, value: nat, ghost s: nat, ghost v: View,
        ghost run: Run) returns (ghost w: View)
      requires slab.Ok(s, v) && run in v.runs && data == slab.data && run.pos <= pos < run.pos + run.len <= |v.mem|
      modifies data
      ensures slab.Ok(s, w) && w == v.(mem := v.mem[pos := Byte(value)])
      ensures Untouched(v.mem, w.mem, v.runs - {run})
    {
      data[pos] := Byte(value);
      w := v.(mem := data[..]);
      UserBytesAreSafe(slab, s, v, w, run);
    }

    static method CopyIn(ghost slab: Slab, data: array<Cell<Header>>, at: nat, src: array<Cell<Header>>, from: nat,
        len: nat, ghost s: nat, ghost v: View, ghost run: Run, ghost other: Run) returns (ghost w: View)
      requires slab.Ok(s, v) && run in v.runs && data == slab.data && at == run.pos && len <= run.len
      requires from == other.pos && len <= other.len && other.pos + other.len <= src.Length
      requires src == data ==> other in v.runs && other != run
      modifies data
      ensures slab.Ok(s, w) && w.runs == v.runs && w.bits == v.bits && w.base == v.base
      ensures CopiedTo(old(src[..]), other.pos, w.mem, run.pos, len)
      ensures Untouched(v.mem, w.mem, v.runs - {run})
    {
      RunInside(v, s, run);
      if src == data { RunsApart(v.runs, s, |v.bits|, run, other); }
      Copy(data, at, src, from, len);
      w := v.(mem := data[..]);
      UserBytesAreSafe(slab, s, v, w, run);
    }

    method PutShorterHeader(index: nat, need: nat, headerPos: nat, ghost s: nat, ghost v: View, ghost run: Run,
        ghost q: Run) returns (ghost w: View)
      requires Sound(this, s, v) && data[..] == v.mem && run in v.runs && Shaped(q, s, |v.bits|)
      requires index == run.index && 0 < need <= run.count && headerPos + HEADER == run.pos
      requires q == run.(count := need, len := q.len)
      modifies data
      ensures Sound(this, s, w) && data[..] == w.mem && Trimmed(v, w, run, q)
    {
      RunInside(v, s, run);
      StoreWord(data, headerPos, HEADER, Header(this, index, need));
      w := View(v.base, SetRange(v.bits, run.index + need, run.index + run.count, false), v.runs - {run} + {q},
        data[..]);
      TrimIsSound(this, s, v, w, run, q);
    }
  }

  lemma UnmarkedCount(bits: seq<bool>, lo: nat, n: nat)
    requires SetRun(bits, lo, n)
    ensures CountClear(SetRange(bits, lo, lo + n, false), |bits|) == CountClear(bits, |bits|) + n
  {
    CountSetRange(bits, lo, lo + n, false, |bits|);
  }

  function Released(v: View, r: Run): View
    requires r.index + r.count <= |v.bits|
  {
    v.(bits := SetRange(v.bits, r.index, r.index + r.count, false), runs := v.runs - {r})
  }

  ghost predicate Trimmed(v: View, w: View, r: Run, q: Run) {
    && w.base == v.base && |w.mem| == |v.mem|
    && w.runs == v.runs - {r} + {q}
    && r.index + q.count <= r.index + r.count <= |v.bits|
    && w.bits == SetRange(v.bits, r.index + q.count, r.index + r.count, false)
    && Untouched(v.mem, w.mem, v.runs - {r}) && SameOn(v.mem, w.mem, q.pos, q.pos + q.len)
  }

  lemma RunInside(v: View, s: nat, r: Run)
    requires |v.mem| == Off(|v.bits|, s) && Shaped(r, s, |v.bits|)
    ensures HEADER <= r.pos && r.pos + r.len <= |v.mem|
  {
    OffMonotone(r.index + r.count, |v.bits|, s);
  }

  lemma CutIsSound(slab: Slab, s: nat, v: View, w: View, r: Run, q: Run, keep: set<Run>)
    requires Sound(slab, s, v) && r in v.runs
    requires q.index == r.index && q.pos == r.pos && q.count <= r.count
    requires keep == (if q.count == 0 then {} else {q}) && (q.count > 0 ==> Shaped(q, s, |v.bits|))
    requires r.index + r.count <= |v.bits| && |w.mem| == |v.mem|
    requires w.bits == SetRange(v.bits, r.index + q.count, r.index + r.count, false)
    requires w.runs == v.runs - {r} + keep && HeadersIntact(w.mem, slab, w.runs)
    ensures Sound(slab, s, w) && SetRun(v.bits, r.index + q.count, r.count - q.count)
  {
    CutRun(v.bits, v.runs, s, r, q, keep);
  }

  lemma TrimIsSound(slab: Slab, s: nat, v: View, w: View, r: Run, q: Run)
    requires Sound(slab, s, v) && r in v.runs
    requires 0 < q.count <= r.count && Shaped(q, s, |v.bits|)
    requires q == r.(count := q.count, len := q.len) && |w.mem| == |v.mem| && w.base == v.base
    requires w.bits == SetRange(v.bits, r.index + q.count, r.index + r.count, false)
    requires w.runs == v.runs - {r} + {q}
    requires HoldsWord(w.mem, q.pos - HEADER, HEADER, Header(slab, q.index, q.count))
    requires forall i :: 0 <= i < |v.mem| && !(r.pos - HEADER <= i < r.pos) ==> w.mem[i] == v.mem[i]
    ensures Sound(slab, s, w) && Trimmed(v, w, r, q)
  {
    RunInside(v, s, r);
    assert v.runs - {r} + {r} == v.runs;
    HeaderWriteIsSafe(v.mem, w.mem, slab, v.runs - {r}, r, s, |v.bits|);
    CutIsSound(slab, s, v, w, r, q, {q});
  }

  lemma TakeIsSound(slab: Slab, s: nat, v: View, w: View, r: Run)
    requires Sound(slab, s, v) && Shaped(r, s, |v.bits|) && ClearRun(v.bits, r.index, r.count)
    requires w.base == v.base && w.runs == v.runs + {r}
    requires w.bits == SetRange(v.bits, r.index, r.index + r.count, true)
    requires |w.mem| == |v.mem| && HoldsWord(w.mem, r.pos - HEADER, HEADER, Header(slab, r.index, r.count))
    requires forall i :: 0 <= i < |v.mem| && !(r.pos - HEADER <= i < r.pos) ==> w.mem[i] == v.mem[i]
    ensures Sound(slab, s, w) && Taken(v, w, r)
  {
    AddRun(v.bits, v.runs, s, r);
    HeaderWriteIsSafe(v.mem, w.mem, slab, v.runs, r, s, |v.bits|);
  }

  /** A run newly taken from a slab, everything else as before. */
  ghost predicate Taken(v: View, w: View, r: Run) {
    && w.base == v.base
    && r !in v.runs && w.runs == v.runs + {r}
    && r.index + r.count <= |v.bits| && w.bits == SetRange(v.bits, r.index, r.index + r.count, true)
    && Untouched(v.mem, w.mem, v.runs)
  }

  /** The first offset after `start` and a header whose address is aligned. */
  function UserPos(base: nat, start: nat, align: nat): (p: nat)
    requires IsPow2(align)
    ensures start + HEADER <= p < start + HEADER + align
    ensures (base + p) % align == 0
  {
    AlignUpIsLeastMultiple(base + start + HEADER, align);
    AlignUp(base + start + HEADER, align) - base
  }

  /** The run a request for `need` slots gets at `index`. */
  function NewRun(base: nat, index: nat, need: nat, s: nat, size: nat, align: nat): Run
    requires IsPow2(align)
  {
    Run(index, need, UserPos(base, Off(index, s), align), size)
  }

  lemma NewRunFits(base: nat, index: nat, need: nat, s: nat, size: nat, align: nat, n: nat)
    requires IsPow2(align) && s > 0 && need == DivCeil(align - 1 + size + HEADER, s) && index + need <= n
    ensures need >= 1 && Shaped(NewRun(base, index, need, s, size, align), s, n)
    ensures var r := NewRun(base, index, need, s, size, align); HEADER <= r.pos && r.pos + r.len <= Off(n, s)
  {
    DivCeilIsLeast(align - 1 + size + HEADER, s);
    OffSum(index, need, s);
    OffMonotone(index + need, n, s);
  }

  /** Writing a new run's header disturbs no live run. */
  lemma HeaderWriteIsSafe(m: seq<Cell<Header>>, n: seq<Cell<Header>>, slab: Slab, runs: set<Run>, r: Run, s: nat,
      count: nat)
    requires HeadersIntact(m, slab, runs) && r !in runs && RunsOk(runs + {r}, s, count)
    requires |m| == Off(count, s) == |n|
    requires forall i :: 0 <= i < |m| && !(r.pos - HEADER <= i < r.pos) ==> n[i] == m[i]
    ensures HeadersIntact(n, slab, runs) && Untouched(m, n, runs)
  {
    forall q | q in runs
      ensures q.pos >= HEADER && SameOn(m, n, q.pos - HEADER, q.pos + q.len)
      ensures HoldsWord(n, q.pos - HEADER, HEADER, Header(slab, q.index, q.count))
    {
      RunsApart(runs + {r}, s, count, r, q);
      OffMonotone(q.index + q.count, count, s);
      assert Shaped(q, s, count);
      assert HoldsWord(m, q.pos - HEADER, HEADER, Header(slab, q.index, q.count));
    }
  }

  function NewView(base: nat, count: nat, s: nat): View {
    View(base, seq(count, _ => false), {}, seq(Off(count, s), _ => Byte(0)))
  }

  /** The lowest position at or after `j` where `need` bits in a row are clear. */
  function FirstRun(bits: seq<bool>, need: nat, j: nat): (r: Option<nat>)
    ensures r.Some? ==> j <= r.value && ClearRun(bits, r.value, need)
    ensures r.Some? ==> forall i: nat :: j <= i < r.value ==> !ClearRun(bits, i, need)
    ensures r.None? ==> forall i: nat :: j <= i ==> !ClearRun(bits, i, need)
    decreases |bits| - j
  {
    if j + need > |bits| then None
    else if ClearRun(bits, j, need) then Some(j)
    else if j == |bits| then None
    else FirstRun(bits, need, j + 1)
  }

  /** The first run is the only run with no run before it. */
  lemma {:induction false} FirstRunIs(bits: seq<bool>, need: nat, j: nat, p: nat)
    requires j <= p && ClearRun(bits, p, need)
    requires forall i: nat :: j <= i < p ==> !ClearRun(bits, i, need)
    ensures FirstRun(bits, need, j) == Some(p)
    decreases p - j
  {
    if j < p { FirstRunIs(bits, need, j + 1, p); }
  }

  // ---------------------------------------------------------------------------
  // The slab list, oldest first.

  /** The newest of the first `n` slabs with a run of `need` clear bits. */
  function Serving(vs: seq<View>, n: nat, need: nat): (r: Option<nat>)
    requires n <= |vs|
    ensures r.Some? ==> r.value < n && FirstRun(vs[r.value].bits, need, 0).Some?
    ensures r.Some? ==> forall i :: r.value < i < n ==> FirstRun(vs[i].bits, need, 0) == None
    ensures r.None? ==> forall i :: 0 <= i < n ==> FirstRun(vs[i].bits, need, 0) == None
  {
    if n == 0 then None
    else if FirstRun(vs[n - 1].bits, need, 0).Some? then Some(n - 1)
    else Serving(vs, n - 1, need)
  }

  function Need(size: nat, align: nat, s: nat): nat
    requires align > 0 && s > 0
  {
    DivCeil(align - 1 + size + HEADER, s)
  }

  /** The slots asked for are the least number with room for the header and the bytes
      wherever the slab's data may stand. */
  lemma NeedIsLeast(size: nat, align: nat, s: nat, n: nat)
    requires IsPow2(align) && s > 0 && n > 0
    ensures Need(size, align, s) <= n <==> forall base: nat :: Shaped(NewRun(base, 0, n, s, size, align), s, n)
  {
    hide AlignUp;
    DivCeilIsLeast(align - 1 + size + HEADER, s);
    if Need(size, align, s) <= n {
      OffMonotone(Need(size, align, s), n, s);
    } else {
      var base := align * HEADER + 1 - HEADER;
      assert base >= 0 by { MulAtLeast(align, HEADER); }
      FarthestPos(base, align);
      assert !Shaped(NewRun(base, 0, n, s, size, align), s, n);
    }
  }

  /** An address one past a multiple is the worst place for a header to end. */
  lemma FarthestPos(base: nat, align: nat)
    requires IsPow2(align) && base + HEADER == align * HEADER + 1
    ensures UserPos(base, 0, align) == HEADER + align - 1
  {
    var p := UserPos(base, 0, align);
    assert base + (HEADER + align - 1) == align * (HEADER + 1);
    assert (base + (HEADER + align - 1)) % align == 0 by { ModUnique(align * (HEADER + 1), align, HEADER + 1, 0); }
    LeastMultiple(base + HEADER, align, base + p, base + (HEADER + align - 1));
    LeastMultiple(base + HEADER, align, base + (HEADER + align - 1), base + p);
  }

  /** A new slab has the least number of slots that is enough and leaves less than a slot
      of the default size unused. */
  lemma NewCountIsLeast(need: nat, s: nat, n: nat)
    requires s > 0
    ensures NewCount(need, s) <= n <==> 1 <= n && need <= n && 4096 < Off(n + 1, s)
  {
    DivFloorIsGreatest(DEFAULT_SIZE, s, n);
  }

  /** How many slots a slab created for `need` of them gets. */
  function NewCount(need: nat, s: nat): nat
    requires s > 0
  {
    Max(need, if DivFloor(DEFAULT_SIZE, s) == 0 then 1 else DivFloor(DEFAULT_SIZE, s))
  }

  /** The slabs a request works on: a new one is added only when none can serve. */
  function WithRoom(vs: seq<View>, need: nat, s: nat, base: Option<nat>): seq<View>
    requires s > 0
  {
    if Serving(vs, |vs|, need).Some? || base.None? then vs else vs + [NewView(base.value, NewCount(need, s), s)]
  }

  function ServedBy(vs: seq<View>, need: nat): nat {
    match Serving(vs, |vs|, need)
    case Some(k) => k
    case None => |vs|
  }

  ghost function PrevOf(cs: seq<Slab>, i: nat): Slab?
    requires i <= |cs|
  {
    if i == 0 then null else cs[i - 1]
  }

  ghost predicate WellLinked(cs: seq<Slab>, slabs: Slab?)
    reads cs
  {
    && slabs == PrevOf(cs, |cs|)
    && (forall i {:trigger PrevOf(cs, i)} :: 0 <= i < |cs| ==> cs[i].next == PrevOf(cs, i))
    && (forall i, j :: 0 <= i < j < |cs| ==>
         cs[i] != cs[j] && cs[i].data != cs[j].data && cs[i].used.bits != cs[j].used.bits)
  }

  lemma LinkedAfterAdd(cs: seq<Slab>, c: Slab)
    requires WellLinked(cs, PrevOf(cs, |cs|)) && c.next == PrevOf(cs, |cs|)
    requires forall i :: 0 <= i < |cs| ==> cs[i] != c && cs[i].data != c.data && cs[i].used.bits != c.used.bits
    ensures WellLinked(cs + [c], c)
  {
    var ds := cs + [c];
    forall i | 0 <= i < |ds| ensures ds[i].next == PrevOf(ds, i) {
      assert PrevOf(ds, i) == PrevOf(cs, i);
    }
  }

  /** The live runs of every slab. */
  ghost function Lives(vs: seq<View>): (ls: seq<set<Run>>)
    ensures |ls| == |vs|
    ensures forall i :: 0 <= i < |vs| ==> ls[i] == vs[i].runs
  {
    seq(|vs|, i requires 0 <= i < |vs| => vs[i].runs)
  }

  ghost function Granted(ls: seq<set<Run>>, k: nat, r: Run): seq<set<Run>>
    requires k <= |ls|
  {
    if k < |ls| then ls[k := ls[k] + {r}] else ls + [{r}]
  }

  ghost function Dropped(ls: seq<set<Run>>, k: nat, r: Run): seq<set<Run>>
    requires k < |ls|
  {
    ls[k := ls[k] - {r}]
  }

  ghost predicate Kept(vs: seq<View>, ws: seq<View>, lives: seq<set<Run>>) {
    && |lives| == |vs| <= |ws|
    && forall i :: 0 <= i < |vs| ==> ws[i].base == vs[i].base && Untouched(vs[i].mem, ws[i].mem, lives[i])
  }

  lemma TakenIsGranted(vs: seq<View>, k: nat, w: View, run: Run)
    requires k < |vs| && Taken(vs[k], w, run)
    ensures Kept(vs, vs[k := w], Lives(vs))
    ensures Lives(vs[k := w]) == Granted(Lives(vs), k, run)
  {
  }

  ghost predicate PointsTo(r: Result, cs: seq<Slab>, k: nat, run: Run) {
    k < |cs| && r == Ok(Slice(cs[k].data, run.pos, run.len))
  }

  /** The backing allocator's answers when a slab is needed: where its data stands, and
      whether there is memory for its bitmap. */
  datatype Grants = Grants(data: Option<nat>, bitmap: bool)
  {
    function Base(): Option<nat> { if bitmap then data else None }
  }

  class SlabAllocator {
    var slabs: Slab?
    const slabSize: nat
    ghost var chain: seq<Slab>
    ghost var views: seq<View>
    ghost var repr: set<object>
    // Blocks obtained from the backing allocator and not given back: every slab is one,
    // and so is its bitmap.
    ghost var blocks: nat

    ghost predicate Valid()
      reads this, repr
    {
      Consistent() && blocks == 2 * |chain|
    }

    ghost predicate Consistent()
      reads this, repr
    {
      && this in repr && slabSize > 0
      && |chain| == |views|
      && (forall c :: c in chain ==> c in repr && c.data in repr && c.used.bits in repr)
      && WellLinked(chain, slabs)
      && forall i :: 0 <= i < |chain| ==> chain[i].Ok(slabSize, views[i])
    }

    constructor (slabSize: nat)
      ensures Valid() && chain == [] && views == [] && fresh(repr)
      ensures this.slabSize == if slabSize == 0 then DEFAULT_SIZE else slabSize
    {
      this.slabSize := if slabSize == 0 then DEFAULT_SIZE else slabSize;
      slabs := null;
      chain, views, blocks := [], [], 0;
      repr := {this};
    }

    /** First fit over the slabs, newest first. */
    method FindSlab(need: nat) returns (slab: Slab?, index: nat)
      requires Valid() && need > 0
      ensures var k := ServedBy(views, need);
        if k < |chain| then slab == chain[k] && FirstRun(views[k].bits, need, 0) == Some(index) else slab == null
    {
      hide Slab.Ok;
      slab, index := slabs, 0;
      ghost var n: nat := |chain|;
      while slab != null
        invariant n <= |chain| && slab == PrevOf(chain, n)
        invariant Serving(views, |chain|, need) == Serving(views, n, need)
        decreases n
      {
        n := n - 1;
        var pos := slab.Probe(need, slabSize, views[n]);
        if pos.Some? {
          return slab, pos.value;
        }
        assert slab.next == PrevOf(chain, n);
        slab := slab.next;
      }
    }

    /** `cu_create_slab` and the link to it. What the backing allocator granted first is
        given back when it refuses the bitmap. */
    method CreateSlab(count: nat, grants: Grants) returns (c: Slab?)
      requires Valid() && count > 0
      modifies this
      ensures Valid() && fresh(repr - old(repr))
      ensures c == null <==> grants.Base().None?
      ensures c == null ==> chain == old(chain) && views == old(views) && repr == old(repr)
      ensures c != null ==>
        chain == old(chain) + [c] && views == old(views) + [NewView(grants.Base().value, count, slabSize)]
    {
      hide Slab.Ok, NewView, WellLinked;
      c := null;
      if grants.data.Some? {
        blocks := blocks + 1;
        if grants.bitmap {
          blocks := blocks + 1;
          c := AddSlab(count, grants.data.value);
        } else {
          blocks := blocks - 1;
        }
      }
    }

    method AddSlab(count: nat, base: nat) returns (c: Slab)
      requires Consistent() && count > 0
      modifies this
      ensures Consistent() && blocks == old(blocks) && fresh(repr - old(repr))
      ensures chain == old(chain) + [c] && views == old(views) + [NewView(base, count, slabSize)]
    {
      c := new Slab(count, slabSize, base);
      ghost var v := NewView(base, count, slabSize);
      Link(c, v);
    }

    /** Puts a new slab at the head of the list. */
    method Link(c: Slab, ghost v: View)
      requires Consistent() && c.Ok(slabSize, v) && c !in repr && c.data !in repr && c.used.bits !in repr
      modifies this, c`next
      ensures Consistent() && blocks == old(blocks) && repr == old(repr) + {c, c.data, c.used.bits}
      ensures chain == old(chain) + [c] && views == old(views) + [v]
    {
      c.next := slabs;
      slabs := c;
      chain, views := chain + [c], views + [v];
      repr := repr + {c, c.data, c.used.bits};
      LinkedAfterAdd(old(chain), c);
      forall i | 0 <= i < |chain| ensures chain[i].Ok(slabSize, views[i]) {
        if i < |old(chain)| { assert chain[i] == old(chain)[i] && old(chain[i].Ok(slabSize, views[i])); }
      }
    }

    method TakeFrom(slab: Slab, index: nat, need: nat, size: nat, align: nat, ghost k: nat) returns (r: Slice)
      requires Valid() && k < |chain| && slab == chain[k] && IsPow2(align) && need == Need(size, align, slabSize)
      requires need > 0 && FirstRun(views[k].bits, need, 0) == Some(index)
      modifies this`views, slab`freeCount, slab.used.bits, slab.data
      ensures Valid() && Kept(old(views), views, Lives(old(views)))
      ensures var run := NewRun(old(views[k].base), index, need, slabSize, size, align);
        && run !in old(views[k].runs)
        && Lives(views) == Granted(Lives(old(views)), k, run)
        && r == Slice(slab.data, run.pos, size)
    {
      hide Slab.Ok, IsPow2, Off, DivCeil, AlignUp;
      ghost var w;
      r, w := slab.Take(index, need, size, align, slabSize, views[k]);
      TakenIsGranted(views, k, w, NewRun(views[k].base, index, need, slabSize, size, align));
      views := views[k := w];
    }

    /** The slab and position that serve a request for `need` slots; a slab is added
        only when none can serve. */
    method Reserve(need: nat, grants: Grants) returns (slab: Slab?, index: nat)
      requires Valid() && need > 0
      modifies this
      ensures Valid() && fresh(repr - old(repr)) && old(chain) <= chain
      ensures views == WithRoom(old(views), need, slabSize, grants.Base())
      ensures slab == null <==> ServedBy(old(views), need) == |old(views)| && grants.Base().None?
      ensures slab == null ==> views == old(views)
      ensures slab != null ==>
        var k := ServedBy(old(views), need);
        k < |chain| && slab == chain[k] && FirstRun(views[k].bits, need, 0) == Some(index)
    {
      slab, index := FindSlab(need);
      if slab == null {
        var def := SlotsIn(DEFAULT_SIZE, slabSize);
        if def == 0 {
          def := 1;
        }
        var count := Max(need, def);
        slab := CreateSlab(count, grants);
        index := 0;
        if slab != null {
          FirstRunIs(NewView(grants.data.value, count, slabSize).bits, need, 0, 0);
        }
      }
    }

    /** The part of allocation that follows the checks on the request. */
    method Obtain(size: nat, align: nat, grants: Grants) returns (r: Result)
      requires Valid() && size > 0 && IsPow2(align)
      modifies repr
      ensures Valid() && fresh(repr - old(repr)) && old(chain) <= chain
      ensures r.Err? <==> ServedBy(old(views), Need(size, align, slabSize)) == |old(views)| && grants.Base().None?
      ensures r.Err? ==> r == Err(OutOfMemory) && views == old(views)
      ensures r.Ok? ==> Served(old(views), views, chain, size, align, slabSize, grants.Base(), r.slice)
    {
      hide Slab.Ok;
      var needed := align - 1 + size + HEADER;
      var need := SlotsFor(needed, slabSize);
      assert need == Need(size, align, slabSize);
      var slab, index := Reserve(need, grants);
      assert fresh(repr - old(repr));
      if slab == null {
        return Err(OutOfMemory);
      }
      ghost var k, ws := ServedBy(old(views), need), views;
      var s := TakeFrom(slab, index, need, size, align, k);
      AsChosen(old(views), ws, views, chain, size, align, slabSize, grants.Base(), index, s);
      r := Ok(s);
    }

    method Alloc(size: nat, alignment: nat, grants: Grants) returns (r: Result)
      requires Valid() && IsPow2(Align(alignment))
      modifies repr
      ensures Valid() && fresh(repr - old(repr)) && old(chain) <= chain
      ensures r == Err(InvalidInput) <==> size == 0 || Align(alignment) > slabSize
      ensures r.Err? ==> views == old(views)
      ensures r == Err(OutOfMemory) <==>
        size > 0 && Align(alignment) <= slabSize && grants.Base().None? &&
        ServedBy(old(views), Need(size, Align(alignment), slabSize)) == |old(views)|
      ensures r.Ok? ==> Served(old(views), views, chain, size, Align(alignment), slabSize, grants.Base(), r.slice)
    {
      if size == 0 || Align(alignment) > slabSize {
        return Err(InvalidInput);
      }
      var align := if alignment == 0 then 1 else alignment;
      r := Obtain(size, align, grants);
    }

    /** A live run's header names its slab and the slots it owns. */
    method LoadHeader(mem: Slice, ghost k: nat, ghost run: Run) returns (hdr: Header)
      requires Valid() && IsLive(mem, k, run)
      ensures hdr == Header(chain[k], run.index, run.count)
    {
      assert chain[k].Ok(slabSize, views[k]);
      hdr := LoadWord(mem.data, mem.ptr - HEADER, HEADER, Header(chain[k], run.index, run.count));
    }

    /** `mem` is a slice this allocator handed out: a run of slab `k`. */
    ghost predicate IsLive(mem: Slice, k: nat, run: Run)
      requires |chain| == |views|
      reads this
    {
      k < |chain| && run in views[k].runs && mem == Slice(chain[k].data, run.pos, run.len)
    }

    method Free(mem: Slice, ghost k: nat, ghost run: Run)
      requires Valid() && (mem.Slice? ==> IsLive(mem, k, run))
      modifies repr
      ensures Valid() && repr == old(repr) && chain == old(chain)
      ensures mem.Null? ==> views == old(views)
      ensures mem.Slice? ==>
        run.index + run.count <= |old(views)[k].bits| && views == old(views)[k := Released(old(views)[k], run)]
    {
      hide Slab.Ok;
      if mem.Null? {
        return;
      }
      var hdr := LoadHeader(mem, k, run);
      var slab := hdr.slab;
      ghost var w := slab.Release(hdr.index, hdr.count, slabSize, views[k], run);
      views := views[k := w];
    }

    /** Copies a run's contents into a run just handed out. */
    method CopyInto(dst: Slice, ghost i: nat, ghost n: Run, src: Slice, ghost k: nat, ghost run: Run)
      requires Valid() && IsLive(dst, i, n) && IsLive(src, k, run)
      requires i == k ==> n != run
      modifies this`views, dst.data
      ensures Valid() && Lives(views) == Lives(old(views)) && Kept(old(views), views, Dropped(Lives(old(views)), i, n))
      ensures CopiedTo(old(views[k]).mem, run.pos, views[i].mem, n.pos, Min(n.len, run.len))
    {
      hide Slab.Ok;
      chain[k].Inside(slabSize, views[k], run);
      ghost var w := Slab.CopyIn(chain[i], dst.data, dst.ptr, src.data, src.ptr, Min(dst.len, src.len), slabSize,
        views[i], n, run);
      UserChange(views, i, w.mem, n);
      views := views[i := w];
    }

    /** The owner of a run writes one of its bytes. */
    method UserWrite(mem: Slice, pos: nat, value: nat, ghost k: nat, ghost run: Run)
      requires Valid() && IsLive(mem, k, run) && run.pos <= pos < run.pos + run.len
      modifies this`views, mem.data
      ensures Valid() && pos < |old(views[k]).mem|
      ensures views == old(views)[k := old(views[k]).(mem := old(views[k]).mem[pos := Byte(value)])]
      ensures Kept(old(views), views, Dropped(Lives(old(views)), k, run))
    {
      hide Slab.Ok;
      chain[k].Inside(slabSize, views[k], run);
      ghost var w := Slab.Poke(chain[k], mem.data, pos, value, slabSize, views[k], run);
      UserChange(views, k, w.mem, run);
      views := views[k := w];
    }

    method TakeOver(dst: Slice, ghost i: nat, ghost n: Run, mem: Slice, ghost k: nat, ghost run: Run)
      requires Valid() && IsLive(dst, i, n) && IsLive(mem, k, run)
      requires i == k ==> n != run
      modifies repr
      ensures Valid() && repr == old(repr) && chain == old(chain)
      ensures TookOver(old(views), views, i, n, k, run)
    {
      hide Slab.Ok;
      CopyInto(dst, i, n, mem, k, run);
      ghost var vs := views;
      Free(mem, k, run);
      FreedAfterCopy(old(views), vs, views, i, n, k, run);
    }

    /** The fallback of growing: a new run takes over the contents, then the old
        one is released. */
    method MoveTo(mem: Slice, size: nat, alignment: nat, grants: Grants, ghost k: nat, ghost run: Run)
        returns (r: Result)
      requires Valid() && IsPow2(Align(alignment)) && IsLive(mem, k, run)
      modifies repr
      ensures Valid() && fresh(repr - old(repr)) && old(chain) <= chain
      ensures r == Err(InvalidInput) <==> size == 0 || Align(alignment) > slabSize
      ensures r.Err? ==> views == old(views)
      ensures r == Err(OutOfMemory) <==>
        size > 0 && Align(alignment) <= slabSize && grants.Base().None? &&
        ServedBy(old(views), Need(size, Align(alignment), slabSize)) == |old(views)|
      ensures r.Ok? ==>
        Moved(old(views), views, chain, size, Align(alignment), slabSize, grants.Base(), r.slice, k, run)
    {
      hide Slab.Ok;
      chain[k].Inside(slabSize, views[k], run);
      r := Alloc(size, alignment, grants);
      if r.Ok? {
        ghost var (i, n) := Chosen(old(views), size, Align(alignment), slabSize, grants.Base());
        ghost var ws := views;
        ServedIsLive(old(views), ws, chain, size, Align(alignment), slabSize, grants.Base(), r.slice, k, run);
        assert fresh(repr - old(repr));
        TakeOver(r.slice, i, n, mem, k, run);
        ServedThenTakenOver(old(views), ws, views, chain, size, Align(alignment), slabSize, grants.Base(), r.slice, k,
          run);
      }
    }

    /** The bytes a run's owner could use: from its first user byte to the end of
        its last slot. */
    method RoomOf(mem: Slice, hdr: Header, ghost k: nat, ghost run: Run) returns (prefix: nat, room: nat)
      requires Valid() && IsLive(mem, k, run) && hdr == Header(chain[k], run.index, run.count)
      ensures prefix == Prefix(run, slabSize) && room == Room(run, slabSize)
      ensures Shaped(run, slabSize, |views[k].bits|)
    {
      assert chain[k].Ok(slabSize, views[k]);
      hide Slab.Ok;
      var start := SlotOffset(hdr.index, slabSize);
      prefix := mem.ptr - start;
      var whole := SlotOffset(hdr.count, slabSize);
      OffSum(run.index, run.count, slabSize);
      room := whole - prefix;
    }

    /** Gives a run a new length, and its slots from `need` on back. */
    method Resize(mem: Slice, hdr: Header, need: nat, ghost k: nat, ghost run: Run, ghost q: Run)
      requires Valid() && IsLive(mem, k, run) && hdr == Header(chain[k], run.index, run.count)
      requires 0 < need <= hdr.count && q == run.(count := need, len := q.len)
      requires Shaped(q, slabSize, |views[k].bits|)
      modifies repr
      ensures Valid() && repr == old(repr) && chain == old(chain)
      ensures |views| == |old(views)| && views == old(views)[k := views[k]] && Trimmed(old(views)[k], views[k], run, q)
    {
      hide Slab.Ok;
      chain[k].Inside(slabSize, views[k], run);
      ghost var w;
      if need < hdr.count {
        var slab := hdr.slab;
        w := slab.Trim(hdr.index, hdr.count, need, mem.ptr - HEADER, slabSize, views[k], run, q);
      } else {
        w := views[k].(runs := views[k].runs - {run} + {q});
        chain[k].Relabelled(slabSize, views[k], run, q);
      }
      views := views[k := w];
    }

    method Grow(mem: Slice, size: nat, alignment: nat, grants: Grants, ghost k: nat, ghost run: Run)
        returns (r: Result)
      requires Valid() && IsPow2(Align(alignment)) && (mem.Slice? ==> IsLive(mem, k, run))
      modifies repr
      ensures Valid() && fresh(repr - old(repr)) && old(chain) <= chain
      ensures r.Err? ==> views == old(views)
      ensures mem.Null? || size > Room(run, slabSize) ==>
        (r == Err(InvalidInput) <==> size == 0 || Align(alignment) > slabSize) &&
        (r == Err(OutOfMemory) <==>
          size > 0 && Align(alignment) <= slabSize && grants.Base().None? &&
          ServedBy(old(views), Need(size, Align(alignment), slabSize)) == |old(views)|)
      ensures mem.Null? && r.Ok? ==>
        Served(old(views), views, chain, size, Align(alignment), slabSize, grants.Base(), r.slice)
      // The run has room for the new length.
      ensures mem.Slice? && size <= Room(run, slabSize) ==>
        && r == Ok(Slice(mem.data, run.pos, size)) && |views| == |old(views)|
        && views == old(views)[k := views[k]] && Trimmed(old(views)[k], views[k], run, run.(len := size))
      // Otherwise a new run takes over its contents.
      ensures mem.Slice? && size > Room(run, slabSize) && r.Ok? ==>
        Moved(old(views), views, chain, size, Align(alignment), slabSize, grants.Base(), r.slice, k, run)
    {
      hide Slab.Ok;
      if mem.Null? {
        r := Alloc(size, alignment, grants);
        return;
      }
      var hdr := LoadHeader(mem, k, run);
      var prefix, room := RoomOf(mem, hdr, k, run);
      if size <= room {
        Resize(mem, hdr, hdr.count, k, run, run.(len := size));
        return Ok(Slice(mem.data, mem.ptr, size));
      }
      r := MoveTo(mem, size, alignment, grants, k, run);
    }

    method Shrink(mem: Slice, size: nat, alignment: nat, grants: Grants, ghost k: nat, ghost run: Run)
        returns (r: Result)
      requires Valid() && IsPow2(Align(alignment)) && (mem.Slice? ==> IsLive(mem, k, run))
      modifies repr
      ensures Valid() && fresh(repr - old(repr)) && old(chain) <= chain
      ensures mem.Null? ==> r == Err(InvalidInput)
      ensures r.Err? ==> views == old(views)
      // Within the room of the run, only the slots still needed are kept.
      ensures mem.Slice? && size <= Room(run, slabSize) ==>
        && r == Ok(Slice(mem.data, run.pos, size)) && |views| == |old(views)|
        && views == old(views)[k := views[k]] && Trimmed(old(views)[k], views[k], run, Shrunk(run, size, slabSize))
      ensures mem.Slice? && size > Room(run, slabSize) ==>
        (r == Err(InvalidInput) <==> Align(alignment) > slabSize) &&
        (r == Err(OutOfMemory) <==>
          Align(alignment) <= slabSize && grants.Base().None? &&
          ServedBy(old(views), Need(size, Align(alignment), slabSize)) == |old(views)|)
      ensures mem.Slice? && size > Room(run, slabSize) && r.Ok? ==>
        Moved(old(views), views, chain, size, Align(alignment), slabSize, grants.Base(), r.slice, k, run)
    {
      hide Slab.Ok;
      if mem.Null? {
        return Err(InvalidInput);
      }
      var hdr := LoadHeader(mem, k, run);
      var prefix, room := RoomOf(mem, hdr, k, run);
      if size <= room {
        var need := SlotsFor(prefix + size, slabSize);
        ShrunkFits(run, size, slabSize, |views[k].bits|);
        Resize(mem, hdr, need, k, run, Shrunk(run, size, slabSize));
        return Ok(Slice(mem.data, mem.ptr, size));
      }
      r := MoveTo(mem, size, alignment, grants, k, run);
    }

    /** Gives every slab and its bitmap back, live runs or not. */
    method Destroy()
      requires Valid()
      modifies this
      ensures Valid() && chain == [] && views == [] && blocks == 0
    {
      hide Slab.Ok;
      var slab := slabs;
      ghost var n: nat := |chain|;
      while slab != null
        invariant n <= |chain| && slab == PrevOf(chain, n) && blocks == 2 * n
        invariant chain == old(chain) && repr == old(repr) && WellLinked(chain, slabs)
        decreases n
      {
        n := n - 1;
        assert slab.next == PrevOf(chain, n);
        var next := slab.next;
        blocks := blocks - 1;
        blocks := blocks - 1;
        slab := next;
      }
      slabs := null;
      chain, views := [], [];
    }
  }

  /** How far into its slots a run's user bytes begin. */
  ghost function Prefix(run: Run, s: nat): nat {
    if Off(run.index, s) <= run.pos then run.pos - Off(run.index, s) else 0
  }

  ghost function Room(run: Run, s: nat): nat {
    if run.pos <= Off(run.index + run.count, s) then Off(run.index + run.count, s) - run.pos else 0
  }

  /** The room of a run is the greatest length with which it keeps its slots. */
  lemma RoomIsExact(run: Run, s: nat, n: nat, len: nat)
    requires Shaped(run, s, n)
    ensures Shaped(run.(len := len), s, n) <==> len <= Room(run, s)
  {
  }

  /** A run cut down to the slots its new length needs. */
  ghost function Shrunk(run: Run, size: nat, s: nat): Run
    requires s > 0
  {
    run.(count := DivCeil(Prefix(run, s) + size, s), len := size)
  }

  /** The slots kept are enough, and no fewer would be. */
  lemma ShrunkFits(run: Run, size: nat, s: nat, n: nat)
    requires s > 0 && Shaped(run, s, n) && size <= Room(run, s)
    ensures var q := Shrunk(run, size, s); Shaped(q, s, n) && 1 <= q.count <= run.count
    ensures forall c: nat :: Shaped(run.(count := c, len := size), s, n) ==> Shrunk(run, size, s).count <= c
  {
    var q := Shrunk(run, size, s);
    DivCeilIsLeast(Prefix(run, s) + size, s);
    OffSum(run.index, q.count, s);
    OffSum(run.index, run.count, s);
    forall c: nat | Shaped(run.(count := c, len := size), s, n) ensures q.count <= c {
      OffSum(run.index, c, s);
    }
  }

  ghost predicate TookOver(vs: seq<View>, ws: seq<View>, i: nat, n: Run, k: nat, run: Run) {
    && |ws| == |vs| && i < |vs| && k < |vs|
    && Lives(ws) == Dropped(Lives(vs), k, run)
    && Kept(vs, ws, Dropped(Lives(vs), i, n))
    && CopiedTo(vs[k].mem, run.pos, ws[i].mem, n.pos, Min(n.len, run.len))
  }

  lemma FreedAfterCopy(vs: seq<View>, ws: seq<View>, xs: seq<View>, i: nat, n: Run, k: nat, run: Run)
    requires |ws| == |vs| && i < |vs| && k < |vs| && Lives(ws) == Lives(vs) && Kept(vs, ws, Dropped(Lives(vs), i, n))
    requires CopiedTo(vs[k].mem, run.pos, ws[i].mem, n.pos, Min(n.len, run.len))
    requires run.index + run.count <= |ws[k].bits| && xs == ws[k := Released(ws[k], run)]
    ensures TookOver(vs, xs, i, n, k, run)
  {
    assert Lives(xs) == Dropped(Lives(ws), k, run);
    forall j | 0 <= j < |vs| ensures Untouched(vs[j].mem, xs[j].mem, Dropped(Lives(vs), i, n)[j]) {
      assert xs[j].mem == ws[j].mem;
    }
  }

  /** A run moved: the new run holds its contents, the old one is gone, and nothing
      else was touched. */
  ghost predicate Moved(vs: seq<View>, ws: seq<View>, cs: seq<Slab>, size: nat, align: nat, s: nat, base: Option<nat>,
      r: Slice, k: nat, run: Run)
    requires s > 0 && IsPow2(align)
  {
    var (i, n) := Chosen(vs, size, align, s, base);
    && k < |vs| && i <= |vs| && i < |ws| && i < |cs| && r == Slice(cs[i].data, n.pos, n.len)
    && NotYet(Lives(vs), i, n) && n.len == size && (ws[i].base + n.pos) % align == 0
    && Lives(ws) == Dropped(Granted(Lives(vs), i, n), k, run)
    && Kept(vs, ws, Lives(vs))
    && CopiedTo(vs[k].mem, run.pos, ws[i].mem, n.pos, Min(size, run.len))
  }

  lemma ServedIsLive(vs: seq<View>, ws: seq<View>, cs: seq<Slab>, size: nat, align: nat, s: nat, base: Option<nat>,
      r: Slice, k: nat, run: Run)
    requires s > 0 && IsPow2(align) && Served(vs, ws, cs, size, align, s, base, r) && k < |vs| && run in vs[k].runs
    ensures var (i, n) := Chosen(vs, size, align, s, base);
      i < |ws| && n in ws[i].runs && k < |ws| && run in ws[k].runs && (i == k ==> n != run)
  {
    var (i, n) := Chosen(vs, size, align, s, base);
    assert ws[i].runs == Lives(ws)[i] && ws[k].runs == Lives(ws)[k] && Lives(vs)[k] == vs[k].runs;
  }

  lemma ServedThenTakenOver(vs: seq<View>, ws: seq<View>, xs: seq<View>, cs: seq<Slab>, size: nat, align: nat, s: nat,
      base: Option<nat>, r: Slice, k: nat, run: Run)
    requires s > 0 && IsPow2(align) && Served(vs, ws, cs, size, align, s, base, r) && k < |vs| && run in vs[k].runs
    requires run.pos >= HEADER
    requires var (i, n) := Chosen(vs, size, align, s, base); TookOver(ws, xs, i, n, k, run)
    ensures Moved(vs, xs, cs, size, align, s, base, r, k, run)
  {
    hide Chosen;
    var (i, n) := Chosen(vs, size, align, s, base);
    forall j | 0 <= j < |vs| ensures Untouched(vs[j].mem, xs[j].mem, Lives(vs)[j]) && xs[j].base == vs[j].base {
      assert Untouched(vs[j].mem, ws[j].mem, Lives(vs)[j]);
      assert Untouched(ws[j].mem, xs[j].mem, Dropped(Granted(Lives(vs), i, n), i, n)[j]);
    }
    assert run in Lives(vs)[k] && SameOn(vs[k].mem, ws[k].mem, run.pos - HEADER, run.pos + run.len);
  }

  /** Writing inside one run's user bytes harms no header and no other run. */
  lemma UserBytesAreSafe(slab: Slab, s: nat, v: View, w: View, r: Run)
    requires Sound(slab, s, v) && r in v.runs && w == v.(mem := w.mem) && |w.mem| == |v.mem|
    requires forall i :: 0 <= i < |v.mem| && !(r.pos <= i < r.pos + r.len) ==> w.mem[i] == v.mem[i]
    ensures Sound(slab, s, w) && Untouched(v.mem, w.mem, v.runs - {r})
  {
    forall q | q in v.runs ensures HoldsWord(w.mem, q.pos - HEADER, HEADER, Header(slab, q.index, q.count)) {
      assert HoldsWord(v.mem, q.pos - HEADER, HEADER, Header(slab, q.index, q.count));
      if q != r { RunsApart(v.runs, s, |v.bits|, r, q); }
    }
    forall q | q in v.runs - {r} ensures SameOn(v.mem, w.mem, q.pos - HEADER, q.pos + q.len) {
      RunsApart(v.runs, s, |v.bits|, r, q);
    }
  }

  lemma UserChange(vs: seq<View>, k: nat, mem: seq<Cell<Header>>, r: Run)
    requires k < |vs| && r in vs[k].runs && Untouched(vs[k].mem, mem, vs[k].runs - {r})
    ensures var ws := vs[k := vs[k].(mem := mem)];
      Lives(ws) == Lives(vs) && Kept(vs, ws, Dropped(Lives(vs), k, r))
  {
  }

  /** The slab and the run a request gets when it is granted. */
  ghost function Chosen(vs: seq<View>, size: nat, align: nat, s: nat, base: Option<nat>): (nat, Run)
    requires s > 0 && IsPow2(align)
  {
    var need := Need(size, align, s);
    var k, ws := ServedBy(vs, need), WithRoom(vs, need, s, base);
    var at := if k < |ws| then FirstRun(ws[k].bits, need, 0) else None;
    if at.Some? then (k, NewRun(ws[k].base, at.value, need, s, size, align)) else (0, Run(0, 0, 0, 0))
  }

  ghost predicate NotYet(ls: seq<set<Run>>, k: nat, run: Run) {
    k < |ls| ==> run !in ls[k]
  }

  /** A request was granted its chosen run, a new one, with the address aligned,
      and nothing else was touched. */
  ghost predicate Served(vs: seq<View>, ws: seq<View>, cs: seq<Slab>, size: nat, align: nat, s: nat, base: Option<nat>,
      r: Slice)
    requires s > 0 && IsPow2(align)
  {
    var (k, run) := Chosen(vs, size, align, s, base);
    && Kept(vs, ws, Lives(vs))
    && k <= |vs| && k < |ws| && k < |cs| && r == Slice(cs[k].data, run.pos, run.len)
    && Lives(ws) == Granted(Lives(vs), k, run) && NotYet(Lives(vs), k, run)
    && run.len == size && (ws[k].base + run.pos) % align == 0
  }

  lemma AsChosen(vs: seq<View>, ws: seq<View>, xs: seq<View>, cs: seq<Slab>, size: nat, align: nat, s: nat,
      base: Option<nat>, index: nat, r: Slice)
    requires s > 0 && IsPow2(align) && |xs| == |ws| == |cs|
    requires var need := Need(size, align, s);
      var k := ServedBy(vs, need);
      && ws == WithRoom(vs, need, s, base) && k < |ws| && FirstRun(ws[k].bits, need, 0) == Some(index)
      && var run := NewRun(ws[k].base, index, need, s, size, align);
      && run !in ws[k].runs && Kept(ws, xs, Lives(ws)) && Lives(xs) == Granted(Lives(ws), k, run)
      && r == Slice(cs[k].data, run.pos, size)
    ensures Served(vs, xs, cs, size, align, s, base, r)
  {
    var (k, run) := Chosen(vs, size, align, s, base);
    if k == |vs| {
      assert Lives(ws) == Lives(vs) + [{}];
      assert {} + {run} == {run};
      assert Granted(Lives(ws), k, run) == Lives(vs) + [{run}];
    }
    forall i | 0 <= i < |vs| ensures Untouched(vs[i].mem, xs[i].mem, Lives(vs)[i]) {
      assert Untouched(ws[i].mem, xs[i].mem, Lives(ws)[i]);
    }
  }

  lemma FewFree(bits: seq<bool>, need: nat)
    requires CountClear(bits, |bits|) < need
    ensures FirstRun(bits, need, 0) == None
  {
    var r := FirstRun(bits, need, 0);
    if r.Some? { ClearRunIsCounted(bits, r.value, need, |bits|); }
  }
}
