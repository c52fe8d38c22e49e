/** How the WebAssembly allocator carves up memory: live slots, free slots and
    uncarved page tails, and the steps that turn one into another. */
module WasmPieces {
  import opened Bits
  import opened Utility
  import opened Memory

  const PAGE: nat := 65536
  const PAGE_LOG: nat := 16

  /** What the allocator itself writes into memory. */
  datatype Word = Header(offset: nat, slotSize: nat) | Link(next: nat)

  type Mem = seq<Cell<Word>>

  /** `sizeof(size_t)`. */
  predicate WordSize(w: nat) { w == 4 || w == 8 }

  /** The logarithm of the smallest size class. */
  function MinClass(w: nat): nat { if w == 4 then 3 else 4 }

  function SmallClasses(w: nat): nat { if w == 4 then 13 else 12 }

  function BigClasses(w: nat): nat { if w == 4 then 16 else 48 }

  function HeaderSize(w: nat): nat { 2 * w }

  /** The address ends in at least `k` zero digits. */
  predicate Aligned(a: nat, k: nat) {
    k == 0 || (a % 2 == 0 && Aligned(a / 2, k - 1))
  }

  lemma {:induction false} AlignedSum(a: nat, b: nat, k: nat)
    requires Aligned(a, k) && Aligned(b, k)
    ensures Aligned(a + b, k)
  {
    if k > 0 {
      AlignedSum(a / 2, b / 2, k - 1);
      assert (a + b) / 2 == a / 2 + b / 2;
    }
  }

  lemma {:induction false} Pow2Aligned(n: nat, k: nat)
    requires k <= n
    ensures Aligned(Pow2(n), k)
  {
    if k > 0 { Pow2Aligned(n - 1, k - 1); }
  }

  lemma {:induction false} AlignedWeaken(a: nat, k: nat, j: nat)
    requires Aligned(a, k) && j <= k
    ensures Aligned(a, j)
  {
    if j > 0 { AlignedWeaken(a / 2, k - 1, j - 1); }
  }

  /** Of two different aligned addresses one is a whole step further. */
  lemma {:induction false} AlignedGap(a: nat, b: nat, k: nat)
    requires Aligned(a, k) && Aligned(b, k) && a < b
    ensures a + Pow2(k) <= b
  {
    if k > 0 { AlignedGap(a / 2, b / 2, k - 1); }
  }

  lemma {:induction false} AlignedIsMultiple(a: nat, k: nat)
    ensures Aligned(a, k) <==> a % Pow2(k) == 0
  {
    if k > 0 {
      AlignedIsMultiple(a / 2, k - 1);
      HalfMask(a, k);
    }
  }

  lemma PageAligned(a: nat)
    ensures Aligned(a, PAGE_LOG) <==> a % PAGE == 0
    ensures Pow2(PAGE_LOG) == PAGE
  {
    AlignedIsMultiple(a, PAGE_LOG);
    assert Pow2(8) == 256;
    Pow2Sum(8, 8);
  }

  function PageEnd(a: nat): nat { a - a % PAGE + PAGE }

  /** Slots up to a page are aligned to their size, larger ones to a page. */
  predicate SlotAligned(a: nat, k: nat) {
    Aligned(a, if k <= PAGE_LOG then k else PAGE_LOG)
  }

  /** A stretch of memory with one use. `2^k` is a slot's size; `c` is a small class. */
  datatype Piece =
    | Live(addr: nat, k: nat, pos: nat, len: nat)
    | FreeSlot(addr: nat, k: nat)
    | Tail(addr: nat, c: nat)
    | Leaked(addr: nat, k: nat)
  {
    function End(): (e: nat)
      ensures e > addr
    {
      match this
      case Tail(a, _) => PageEnd(a)
      case _ => addr + Pow2(k)
    }
  }

  predicate Apart(p: Piece, lo: nat, hi: nat) {
    p.End() <= lo || hi <= p.addr
  }

  ghost predicate PieceOk(w: nat, p: Piece, m: Mem) {
    && 0 < p.addr && p.End() <= |m|
    && match p
       case Live(a, k, pos, len) =>
         && MinClass(w) < k < 8 * w && SlotAligned(a, k)
         && a + HeaderSize(w) <= pos && pos + len + w <= p.End()
         && HoldsWord(m, pos - HeaderSize(w), HeaderSize(w), Header(pos - HeaderSize(w) - a, Pow2(k)))
       case FreeSlot(a, k) => MinClass(w) < k < 8 * w && SlotAligned(a, k) && w <= Pow2(k)
       case Tail(a, c) => a % PAGE != 0 && c < SmallClasses(w) && Aligned(a, MinClass(w) + c)
       case Leaked(_, _) => true
  }

  /** Memory that `memory.grow` returned. All other memory belongs to others. */
  datatype Region = Region(lo: nat, hi: nat)

  ghost predicate Inside(rs: set<Region>, lo: nat, hi: nat) {
    exists r :: r in rs && r.lo <= lo && hi <= r.hi
  }

  ghost predicate Covered(rs: set<Region>, i: nat) {
    exists r :: r in rs && r.lo <= i < r.hi
  }

  /** The allocator's state: memory, the regions of it that were obtained, their
      pieces, the free list of every slot size (indexed by the size's logarithm), and
      where each small class carves next. */
  datatype State = State(mem: Mem, regions: set<Region>, pieces: set<Piece>, lists: seq<seq<nat>>, nexts: seq<nat>)

  ghost predicate Disjoint(ps: set<Piece>) {
    forall p, q :: p in ps && q in ps && p != q ==> Apart(p, q.addr, q.End())
  }

  function Head(list: seq<nat>): nat { if list == [] then 0 else list[0] }

  /** The `i`th entry of a free list is a free slot whose last word links to the next. */
  ghost predicate Entry(w: nat, st: State, l: seq<nat>, i: nat, k: nat)
    requires i < |l|
  {
    FreeSlot(l[i], k) in st.pieces && w <= Pow2(k) && HoldsWord(st.mem, l[i] + Pow2(k) - w, w, Link(Head(l[i + 1..])))
  }

  /** A free list never comes back to a slot. */
  ghost predicate ListOk(w: nat, st: State, k: nat)
    requires k < |st.lists|
  {
    var l := st.lists[k];
    && (forall i: nat :: i < |l| ==> Entry(w, st, l, i, k))
    && forall i, j :: 0 <= i < j < |l| ==> l[i] != l[j]
  }

  ghost predicate TailsOk(w: nat, st: State) {
    && |st.nexts| == SmallClasses(w)
    && (forall c {:trigger st.nexts[c]} :: 0 <= c < |st.nexts| && st.nexts[c] % PAGE != 0 ==>
      Tail(st.nexts[c], c) in st.pieces)
    && forall p :: p in st.pieces && p.Tail? ==> p.c < |st.nexts| && st.nexts[p.c] == p.addr
  }

  /** Regions are memory, and every piece lies in one of them. */
  ghost predicate Housed(st: State) {
    && (forall r :: r in st.regions ==> r.hi <= |st.mem|)
    && (forall p :: p in st.pieces ==> Inside(st.regions, p.addr, p.End()))
  }

  ghost predicate Sound(w: nat, st: State) {
    && (forall p :: p in st.pieces ==> PieceOk(w, p, st.mem))
    && Disjoint(st.pieces)
    && Housed(st)
    && |st.lists| == 8 * w
    && (forall k :: 0 <= k < |st.lists| ==> ListOk(w, st, k))
    && (forall p :: p in st.pieces && p.FreeSlot? ==> p.k < |st.lists| && p.addr in st.lists[p.k])
    && TailsOk(w, st)
  }

  /** A stretch of a region that no piece touches. */
  ghost predicate Hole(st: State, lo: nat, hi: nat) {
    0 < lo <= hi <= |st.mem| && Inside(st.regions, lo, hi) && forall p :: p in st.pieces ==> Apart(p, lo, hi)
  }

  /** The bytes of every live slot up to its last user byte are the same. */
  ghost predicate Kept(m: Mem, n: Mem, pieces: set<Piece>) {
    |m| <= |n| && forall p :: p in pieces && p.Live? ==> Agree(m, n, p.addr, p.pos + p.len)
  }

  /** Memory was grown by the regions `fetched` and by nothing else, and every byte
      outside the regions obtained before is the same. */
  ghost predicate Framed(st: State, st': State, fetched: set<Region>) {
    && st'.regions == st.regions + fetched && |st.mem| <= |st'.mem|
    && (fetched == {} ==> |st'.mem| == |st.mem|)
    && (forall r :: r in fetched ==> |st.mem| <= r.lo && r.hi == |st'.mem|)
    && Foreign(st.mem, st'.mem, st.regions)
  }

  ghost predicate Foreign(m: Mem, n: Mem, rs: set<Region>) {
    forall i: nat :: i < |m| && i < |n| && !Covered(rs, i) ==> n[i] == m[i]
  }

  ghost predicate Agree(m: Mem, n: Mem, lo: nat, hi: nat) {
    forall i :: lo <= i < hi && i < |m| && i < |n| ==> m[i] == n[i]
  }

  function Lives(pieces: set<Piece>): set<Piece> {
    set p | p in pieces && p.Live?
  }

  ghost predicate Used(ps: set<Piece>, i: nat) {
    exists p :: p in ps && p.addr <= i < p.End()
  }

  /** Every byte of the regions, but for those from `lo` up to `hi`, belongs to a piece. */
  ghost predicate Filled(rs: set<Region>, ps: set<Piece>, lo: nat, hi: nat) {
    forall i: nat :: Covered(rs, i) && !(lo <= i < hi) ==> Used(ps, i)
  }

  /** A piece that is taken away leaves its own bytes and no others. */
  lemma TakenFills(rs: set<Region>, ps: set<Piece>, p: Piece)
    requires Filled(rs, ps, 0, 0)
    ensures Filled(rs, ps - {p}, p.addr, p.End())
  {
    forall i: nat | Covered(rs, i) && !(p.addr <= i < p.End()) ensures Used(ps - {p}, i) {
      var q :| q in ps && q.addr <= i < q.End();
      assert q in ps - {p};
    }
  }

  /** A new piece narrows what is left over. */
  lemma AddedFills(rs: set<Region>, ps: set<Piece>, p: Piece, lo: nat, hi: nat, lo': nat, hi': nat)
    requires Filled(rs, ps, lo, hi)
    requires hi <= p.End() && (p.addr <= lo || (lo' <= lo && p.addr <= hi'))
    ensures Filled(rs, ps + {p}, lo', hi')
  {
    forall i: nat | Covered(rs, i) && !(lo' <= i < hi') ensures Used(ps + {p}, i) {
      var q := p;
      if !(lo <= i < hi) { q :| q in ps && q.addr <= i < q.End(); }
      assert q in ps + {p};
    }
  }

  lemma RegionFills(rs: set<Region>, ps: set<Piece>, r: Region)
    requires Filled(rs, ps, 0, 0)
    ensures Filled(rs + {r}, ps, r.lo, r.hi)
  {
    forall i: nat | Covered(rs + {r}, i) && !(r.lo <= i < r.hi) ensures Used(ps, i) {
      assert Covered(rs, i);
    }
  }

  /** A change inside a region changes nothing outside the regions. */
  lemma ChangedInside(m: Mem, n: Mem, rs: set<Region>, lo: nat, hi: nat)
    requires |n| >= |m| && Inside(rs, lo, hi)
    requires forall i :: 0 <= i < |m| && !(lo <= i < hi) ==> n[i] == m[i]
    ensures Foreign(m, n, rs)
  {
    forall i: nat | i < |m| && !Covered(rs, i) ensures n[i] == m[i] {
      var r :| r in rs && r.lo <= lo && hi <= r.hi;
      assert !(r.lo <= i < r.hi);
    }
  }

  /** Two changes in a row. */
  lemma FramedTwice(a: State, b: State, c: State, fetched: set<Region>)
    requires Framed(a, b, fetched) && Framed(b, c, {})
    ensures Framed(a, c, fetched)
  {
    forall i: nat | i < |a.mem| && !Covered(a.regions, i) ensures c.mem[i] == a.mem[i] {
      assert !Covered(b.regions, i);
    }
    assert c.regions == a.regions + fetched;
  }

  /** What others write outside the regions does the allocator no harm. */
  lemma OthersAreHarmless(w: nat, st: State, n: Mem)
    requires Sound(w, st) && |n| >= |st.mem|
    requires forall i: nat :: i < |st.mem| && Covered(st.regions, i) ==> n[i] == st.mem[i]
    ensures Sound(w, st.(mem := n)) && Kept(st.mem, n, st.pieces)
  {
    hide ListOk, HoldsWord, Pow2, SlotAligned, Aligned;
    var st' := st.(mem := n);
    forall p | p in st.pieces ensures forall i: nat :: p.addr <= i < p.End() ==> i < |st.mem| && n[i] == st.mem[i] {
      PieceCovered(st, p);
    }
    forall p | p in st.pieces ensures PieceOk(w, p, n) && (p.Live? ==> Agree(st.mem, n, p.addr, p.pos + p.len)) {
      PieceSame(w, p, st.mem, n);
    }
    forall k | 0 <= k < |st.lists| ensures ListOk(w, st', k) { ListSame(w, st, k, n); }
  }

  lemma PieceCovered(st: State, p: Piece)
    requires Housed(st) && p in st.pieces
    ensures forall i: nat :: p.addr <= i < p.End() ==> i < |st.mem| && Covered(st.regions, i)
  {
    var r :| r in st.regions && r.lo <= p.addr && p.End() <= r.hi;
  }

  lemma PieceSame(w: nat, p: Piece, m: Mem, n: Mem)
    requires PieceOk(w, p, m) && |n| >= |m|
    requires forall i: nat :: p.addr <= i < p.End() ==> i < |m| && n[i] == m[i]
    ensures PieceOk(w, p, n) && (p.Live? ==> Agree(m, n, p.addr, p.pos + p.len))
  {
    hide SlotAligned, Aligned, Pow2;
  }

  lemma ListSame(w: nat, st: State, k: nat, n: Mem)
    requires k < |st.lists| && ListOk(w, st, k) && |n| >= |st.mem|
    requires forall p :: p in st.pieces ==> forall i: nat :: p.addr <= i < p.End() ==> i < |st.mem| && n[i] == st.mem[i]
    ensures ListOk(w, st.(mem := n), k)
  {
    hide Pow2;
    var l := st.lists[k];
    forall i: nat | i < |l| ensures Entry(w, st.(mem := n), l, i, k) {
      assert Entry(w, st, l, i, k) && FreeSlot(l[i], k) in st.pieces;
    }
  }

  /** Free lists only depend on the free slots and what they hold. */
  lemma ListsKeep(w: nat, st: State, st': State)
    requires Sound(w, st) && st'.mem == st.mem && st'.lists == st.lists
    requires forall f :: f in st.pieces && f.FreeSlot? ==> f in st'.pieces
    ensures forall k :: 0 <= k < |st'.lists| ==> ListOk(w, st', k)
  {
    hide PieceOk, HoldsWord, Disjoint, TailsOk, Pow2;
    forall k | 0 <= k < |st'.lists| ensures ListOk(w, st', k) {
      var l := st.lists[k];
      assert ListOk(w, st, k);
      forall i: nat | i < |l| ensures Entry(w, st', l, i, k) { assert Entry(w, st, l, i, k); }
    }
  }

  lemma PieceUnharmed(w: nat, p: Piece, m: Mem, n: Mem, lo: nat, hi: nat)
    requires PieceOk(w, p, m) && Apart(p, lo, hi) && |n| >= |m|
    requires forall i :: 0 <= i < |m| && !(lo <= i < hi) ==> n[i] == m[i]
    ensures PieceOk(w, p, n) && (p.Live? ==> Agree(m, n, p.addr, p.pos + p.len))
  {
    hide SlotAligned, Aligned, Pow2;
  }

  lemma ListUnharmed(w: nat, st: State, k: nat, n: Mem, lo: nat, hi: nat)
    requires k < |st.lists| && ListOk(w, st, k) && |n| >= |st.mem|
    requires forall i :: 0 <= i < |st.mem| && !(lo <= i < hi) ==> n[i] == st.mem[i]
    requires forall p :: p in st.pieces ==> Apart(p, lo, hi)
    ensures ListOk(w, st.(mem := n), k)
  {
    hide Pow2;
    var l := st.lists[k];
    forall i: nat | i < |l| ensures Entry(w, st.(mem := n), l, i, k) {
      assert Entry(w, st, l, i, k) && Apart(FreeSlot(l[i], k), lo, hi);
    }
  }

  /** Memory may change where no piece is. */
  lemma WriteInHole(w: nat, st: State, n: Mem, lo: nat, hi: nat)
    requires Sound(w, st) && forall p :: p in st.pieces ==> Apart(p, lo, hi)
    requires |n| >= |st.mem| && forall i :: 0 <= i < |st.mem| && !(lo <= i < hi) ==> n[i] == st.mem[i]
    ensures Sound(w, st.(mem := n)) && Kept(st.mem, n, st.pieces)
  {
    hide PieceOk, ListOk, Agree, Apart;
    forall p | p in st.pieces ensures PieceOk(w, p, n) && (p.Live? ==> Agree(st.mem, n, p.addr, p.pos + p.len)) {
      PieceUnharmed(w, p, st.mem, n, lo, hi);
    }
    forall k | 0 <= k < |st.lists| ensures ListOk(w, st.(mem := n), k) {
      ListUnharmed(w, st, k, n, lo, hi);
    }
  }

  /** The first slot of a free list can be taken. */
  function Taken(st: State, k: nat): State
    requires k < |st.lists| && st.lists[k] != []
  {
    st.(pieces := st.pieces - {FreeSlot(st.lists[k][0], k)}, lists := st.lists[k := st.lists[k][1..]])
  }

  lemma TakenList(w: nat, st: State, k: nat, j: nat)
    requires k < |st.lists| && st.lists[k] != [] && j < |st.lists| && ListOk(w, st, j)
    ensures ListOk(w, Taken(st, k), j)
  {
    hide HoldsWord, Pow2;
    var l, st' := st.lists[j], Taken(st, k);
    if j == k {
      var t := l[1..];
      forall i: nat | i < |t| ensures Entry(w, st', t, i, k) {
        assert Entry(w, st, l, i + 1, k) && l[0] != l[i + 1] && t[i + 1..] == l[i + 2..];
      }
    } else {
      forall i: nat | i < |l| ensures Entry(w, st', l, i, j) { assert Entry(w, st, l, i, j); }
    }
  }

  lemma TakeFree(w: nat, st: State, k: nat)
    requires Sound(w, st) && k < |st.lists| && st.lists[k] != []
    ensures var a := st.lists[k][0];
      && FreeSlot(a, k) in st.pieces && PieceOk(w, FreeSlot(a, k), st.mem)
      && Sound(w, Taken(st, k)) && Hole(Taken(st, k), a, a + Pow2(k))
      && HoldsWord(st.mem, a + Pow2(k) - w, w, Link(Head(st.lists[k][1..])))
  {
    hide HoldsWord, Pow2;
    var l, st' := st.lists[k], Taken(st, k);
    assert ListOk(w, st, k) && Entry(w, st, l, 0, k);
    hide ListOk;
    forall j | 0 <= j < |st'.lists| ensures ListOk(w, st', j) { TakenList(w, st, k, j); }
    forall p | p in st'.pieces && p.FreeSlot? ensures p.addr in st'.lists[p.k] {
      if p.k == k { assert p.addr in l && p.addr != l[0]; }
    }
  }

  /** A hole becomes a free slot at the head of its list. */
  function Pushed(st: State, a: nat, k: nat): State
    requires k < |st.lists|
  {
    st.(pieces := st.pieces + {FreeSlot(a, k)}, lists := st.lists[k := [a] + st.lists[k]])
  }

  lemma PushedList(w: nat, st: State, a: nat, k: nat, j: nat)
    requires k < |st.lists| && j < |st.lists| && ListOk(w, st, j) && FreeSlot(a, k) !in st.pieces
    requires w <= Pow2(k) && HoldsWord(st.mem, a + Pow2(k) - w, w, Link(Head(st.lists[k])))
    ensures ListOk(w, Pushed(st, a, k), j)
  {
    hide HoldsWord, Pow2;
    var l, st' := st.lists[j], Pushed(st, a, k);
    forall i: nat | i < |l| ensures Entry(w, st', l, i, j) { assert Entry(w, st, l, i, j); }
    if j == k {
      var n := [a] + l;
      forall i: nat | i < |n| ensures Entry(w, st', n, i, k) {
        if i > 0 {
          assert Entry(w, st', l, i - 1, k) && n[i + 1..] == l[i..];
        } else {
          assert n[1..] == l;
        }
      }
      forall h, i | 0 <= h < i < |n| ensures n[h] != n[i] {
        assert Entry(w, st, l, i - 1, k);
      }
    }
  }

  lemma AddFree(w: nat, st: State, a: nat, k: nat)
    requires Sound(w, st) && k < |st.lists| && Hole(st, a, a + Pow2(k)) && PieceOk(w, FreeSlot(a, k), st.mem)
    requires HoldsWord(st.mem, a + Pow2(k) - w, w, Link(Head(st.lists[k])))
    ensures Sound(w, Pushed(st, a, k)) && FreeSlot(a, k) !in st.pieces
  {
    hide HoldsWord, Pow2, ListOk;
    var f, st' := FreeSlot(a, k), Pushed(st, a, k);
    assert f in st.pieces ==> Apart(f, a, a + Pow2(k));
    forall j | 0 <= j < |st'.lists| ensures ListOk(w, st', j) { PushedList(w, st, a, k, j); }
    forall p | p in st'.pieces && p.FreeSlot? ensures p.k < |st'.lists| && p.addr in st'.lists[p.k] {
      if p != f { assert p.addr in st.lists[p.k]; }
    }
  }

  lemma AddLive(w: nat, st: State, p: Piece)
    requires Sound(w, st) && p.Live? && Hole(st, p.addr, p.End()) && PieceOk(w, p, st.mem)
    ensures Sound(w, st.(pieces := st.pieces + {p})) && p !in st.pieces
  {
    hide ListOk, HoldsWord, Pow2;
    var st' := st.(pieces := st.pieces + {p});
    assert p in st.pieces ==> Apart(p, p.addr, p.End());
    ListsKeep(w, st, st');
  }

  lemma DropLive(w: nat, st: State, p: Piece)
    requires Sound(w, st) && p.Live? && p in st.pieces
    ensures var st' := st.(pieces := st.pieces - {p}); Sound(w, st') && Hole(st', p.addr, p.End())
  {
    hide ListOk, HoldsWord, Pow2;
    var st' := st.(pieces := st.pieces - {p});
    assert PieceOk(w, p, st.mem);
    ListsKeep(w, st, st');
  }

  /** The upper half of a slot can be given up for good. */
  lemma Leak(w: nat, st: State, a: nat, k: nat)
    requires Sound(w, st) && Hole(st, a, a + Pow2(k + 1))
    ensures var st' := st.(pieces := st.pieces + {Leaked(a + Pow2(k), k)}); Sound(w, st') && Hole(st', a, a + Pow2(k))
  {
    hide ListOk, HoldsWord;
    var st' := st.(pieces := st.pieces + {Leaked(a + Pow2(k), k)});
    ListsKeep(w, st, st');
  }

  /** The tail of class `c` gives up its first slot. */
  function Carved(w: nat, st: State, c: nat): State
    requires c < |st.nexts|
  {
    var a, b := st.nexts[c], st.nexts[c] + Pow2(MinClass(w) + c);
    st.(pieces := st.pieces - {Tail(a, c)} + (if b % PAGE == 0 then {} else {Tail(b, c)}), nexts := st.nexts[c := b])
  }

  lemma CarveTail(w: nat, st: State, c: nat)
    requires Sound(w, st) && WordSize(w) && c < |st.nexts| && st.nexts[c] % PAGE != 0
    ensures var a, k := st.nexts[c], MinClass(w) + c;
      && Tail(a, c) in st.pieces
      && Sound(w, Carved(w, st, c)) && Hole(Carved(w, st, c), a, a + Pow2(k)) && SlotAligned(a, k)
  {
    var a, k := st.nexts[c], MinClass(w) + c;
    assert Tail(a, c) in st.pieces && PieceOk(w, Tail(a, c), st.mem);
    NextInPage(a, k);
    CarvedIsSound(w, st, c);
  }

  lemma CarvedFills(w: nat, st: State, c: nat)
    requires Sound(w, st) && WordSize(w) && c < |st.nexts| && st.nexts[c] % PAGE != 0
    requires Filled(st.regions, st.pieces, 0, 0)
    ensures Filled(st.regions, Carved(w, st, c).pieces, st.nexts[c], st.nexts[c] + Pow2(MinClass(w) + c))
  {
    hide Filled, Pow2, Aligned;
    var a, k := st.nexts[c], MinClass(w) + c;
    var b := a + Pow2(k);
    assert Tail(a, c) in st.pieces && PieceOk(w, Tail(a, c), st.mem);
    NextInPage(a, k);
    TakenFills(st.regions, st.pieces, Tail(a, c));
    if b % PAGE == 0 {
      assert b == PageEnd(a);
      assert st.pieces - {Tail(a, c)} + {} == st.pieces - {Tail(a, c)};
    } else {
      AddedFills(st.regions, st.pieces - {Tail(a, c)}, Tail(b, c), a, PageEnd(a), a, b);
    }
  }

  /** The address one slot further is still in the page or at its end. */
  lemma NextInPage(a: nat, k: nat)
    requires a % PAGE != 0 && k < PAGE_LOG && Aligned(a, k)
    ensures var b := a + Pow2(k); Aligned(b, k) && b <= PageEnd(a) && (b % PAGE != 0 ==> PageEnd(b) == PageEnd(a))
  {
    hide Pow2, Aligned;
    Pow2Aligned(k, k);
    AlignedSum(a, Pow2(k), k);
    PageAligned(PageEnd(a));
    AlignedWeaken(PageEnd(a), PAGE_LOG, k);
    AlignedGap(a, PageEnd(a), k);
    var b := a + Pow2(k);
    assert b % PAGE != 0 ==> PageEnd(b) == PageEnd(a);
  }

  lemma CarvedIsSound(w: nat, st: State, c: nat)
    requires Sound(w, st) && c < |st.nexts|
    requires var a, b := st.nexts[c], st.nexts[c] + Pow2(MinClass(w) + c);
      && Tail(a, c) in st.pieces && b <= PageEnd(a) && (b % PAGE != 0 ==> PageEnd(b) == PageEnd(a))
      && Aligned(b, MinClass(w) + c)
    ensures Sound(w, Carved(w, st, c)) && Hole(Carved(w, st, c), st.nexts[c], st.nexts[c] + Pow2(MinClass(w) + c))
  {
    hide ListOk, HoldsWord, Pow2;
    var a, st' := st.nexts[c], Carved(w, st, c);
    assert PieceOk(w, Tail(a, c), st.mem);
    ListsKeep(w, st, st');
    forall d | 0 <= d < |st'.nexts| && st'.nexts[d] % PAGE != 0 ensures Tail(st'.nexts[d], d) in st'.pieces {
      if d != c { assert Tail(st.nexts[d], d) in st.pieces; }
    }
  }

  /** A whole page at `a` starts serving class `c`. */
  function Started(w: nat, st: State, c: nat, a: nat): State
    requires c < |st.nexts|
  {
    var b := a + Pow2(MinClass(w) + c);
    st.(pieces := st.pieces + {Tail(b, c)}, nexts := st.nexts[c := b])
  }

  lemma StartPage(w: nat, st: State, c: nat, a: nat)
    requires Sound(w, st) && WordSize(w) && c < |st.nexts| && st.nexts[c] % PAGE == 0
    requires Hole(st, a, a + PAGE) && a % PAGE == 0
    ensures var k := MinClass(w) + c;
      Sound(w, Started(w, st, c, a)) && Hole(Started(w, st, c, a), a, a + Pow2(k)) && SlotAligned(a, k)
  {
    hide Aligned, Pow2, Hole, Started;
    var k := MinClass(w) + c;
    var b := a + Pow2(k);
    PageAligned(a);
    AlignedWeaken(a, PAGE_LOG, k);
    Pow2Aligned(k, k);
    AlignedSum(a, Pow2(k), k);
    Pow2Monotone(k, PAGE_LOG);
    assert b % PAGE != 0 && PageEnd(b) == a + PAGE;
    StartedIsSound(w, st, c, a);
  }

  lemma StartedIsSound(w: nat, st: State, c: nat, a: nat)
    requires Sound(w, st) && c < |st.nexts| && st.nexts[c] % PAGE == 0 && Hole(st, a, a + PAGE)
    requires var b := a + Pow2(MinClass(w) + c);
      b % PAGE != 0 && PageEnd(b) == a + PAGE && Aligned(b, MinClass(w) + c)
    ensures Sound(w, Started(w, st, c, a)) && Hole(Started(w, st, c, a), a, a + Pow2(MinClass(w) + c))
  {
    hide ListOk, HoldsWord, Pow2;
    var b, st' := a + Pow2(MinClass(w) + c), Started(w, st, c, a);
    assert forall d :: d != c ==> Tail(b, c) != Tail(b, d);
    ListsKeep(w, st, st');
    forall d | 0 <= d < |st'.nexts| && st'.nexts[d] % PAGE != 0 ensures Tail(st'.nexts[d], d) in st'.pieces {
      if d != c { assert Tail(st.nexts[d], d) in st.pieces; }
    }
  }

  // ---------------------------------------------------------------------------
  // Requests.

  function UserOffset(w: nat, align: nat): nat
    requires align > 0
  {
    AlignUp(HeaderSize(w), align)
  }

  function Needed(w: nat, size: nat, align: nat): nat
    requires align > 0
  {
    UserOffset(w, align) + size + w
  }

  /** `big_pages_needed`. */
  function PagesFor(w: nat, needed: nat): nat { (needed + (PAGE + (w - 1))) / PAGE }

  /** The logarithm of the number of bytes actually taken. */
  function TakenLog(w: nat, needed: nat): nat {
    if CeilLog(needed) < PAGE_LOG then CeilLog(needed) else PAGE_LOG + Log2(CeilPow2(PagesFor(w, needed)))
  }

  /** The request and the last word of its slot fit in half the address space. */
  predicate Addressable(w: nat, needed: nat) {
    w > 0 && needed + w <= Pow2(8 * w - 1)
  }

  lemma PagesTimes(x: nat, n: nat)
    requires n >= PAGE_LOG
    ensures Pow2(n) == PAGE * Pow2(n - PAGE_LOG)
  {
    PageAligned(0);
    Pow2Sum(PAGE_LOG, n - PAGE_LOG);
  }

  /** A large request takes twice the slot it is filed under exactly when its last
      word does not fit behind it once more. */
  lemma TakenIsSlotOrDouble(w: nat, needed: nat)
    requires WordSize(w) && CeilLog(needed) >= PAGE_LOG
    ensures var k := CeilLog(needed);
      TakenLog(w, needed) == if needed + w <= Pow2(k) then k else k + 1
  {
    var k, n := CeilLog(needed), PagesFor(w, needed);
    var j := k - PAGE_LOG;
    CeilLogBounds(needed);
    PagesTimes(needed, k);
    if needed + w <= Pow2(k) {
      if j > 0 { PagesTimes(needed, k - 1); }
      CeilPow2Is(n, j);
    } else {
      CeilPow2Is(n, j + 1);
    }
  }

  /** A request stays within the size classes exactly when it is addressable. Any
      larger one is filed past the end of the class arrays. */
  lemma ClassesSuffice(w: nat, needed: nat)
    requires WordSize(w) && needed > HeaderSize(w) + w
    ensures MinClass(w) < CeilLog(needed) <= TakenLog(w, needed) && w <= Pow2(CeilLog(needed))
    ensures TakenLog(w, needed) < 8 * w <==> Addressable(w, needed)
  {
    hide CeilLog, Pow2;
    var k := CeilLog(needed);
    CeilLogBounds(needed);
    SmallPowers();
    AboveSmallest(w, needed);
    if k >= PAGE_LOG {
      TakenIsSlotOrDouble(w, needed);
      Pow2Sum(1, k);
      if needed + w <= Pow2(k) { HalfSpace(w, needed, k); } else { HalfSpace(w, needed, k + 1); }
    } else {
      Pow2Monotone(k, PAGE_LOG);
      Pow2Monotone(PAGE_LOG + 1, 8 * w - 1);
      PageAligned(0);
      Pow2Sum(1, PAGE_LOG);
    }
  }

  lemma AboveSmallest(w: nat, needed: nat)
    requires WordSize(w) && needed > HeaderSize(w) + w
    ensures MinClass(w) < CeilLog(needed) && w <= Pow2(CeilLog(needed))
  {
    hide CeilLog;
    var k := CeilLog(needed);
    CeilLogBounds(needed);
    assert Pow2(3) == 8 && Pow2(4) == 16;
    if k <= MinClass(w) { Pow2Monotone(k, MinClass(w)); }
    Pow2Monotone(MinClass(w), k);
  }

  lemma HalfSpace(w: nat, needed: nat, k: nat)
    requires k > 0 && Pow2(k - 1) < needed + w <= Pow2(k) && w > 0
    ensures k < 8 * w <==> Addressable(w, needed)
  {
    hide Pow2;
    if k < 8 * w { Pow2Monotone(k, 8 * w - 1); } else { Pow2Monotone(8 * w - 1, k - 1); }
  }
}
