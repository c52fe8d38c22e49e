/** `cu_GPAllocator`: buckets of equal slots for small requests, a list of separate
    blocks for large ones. */
module GPAllocators {
  import opened Allocation
  import opened Slices
  import opened Bits
  import opened Bitmaps
  import opened GpBuckets
  import opened Options
  import opened Slots
  import opened Utility

  class Bucket {
    var prev: Bucket?
    var next: Bucket?
    const used: Bitmap
    const data: nat
    const objectSize: nat
    const slotCount: nat
    var usedCount: nat

    constructor (data: nat, objectSize: nat, slotCount: nat, ghost cls: nat)
      requires slotCount > 0
      ensures prev == null && next == null && fresh(used) && fresh(used.bits)
      ensures Ok(View(cls, data, objectSize, seq(slotCount, _ => false)))
    {
      prev, next := null, null;
      used := new Bitmap(slotCount);
      this.data := data;
      this.objectSize := objectSize;
      this.slotCount := slotCount;
      usedCount := 0;
      new;
      CountAll(used.Used(), slotCount);
    }

    /** The fields and the bitmap are those of the abstract bucket, and `usedCount`
        is the number of taken slots. */
    ghost predicate Ok(v: View)
      reads this`usedCount, used.bits
    {
      && used.Valid() && used.bitCount == slotCount == |v.bits| && used.Used() == v.bits
      && data == v.data && objectSize == v.size
      && usedCount == Population(v.bits)
    }

    /** Whether the address lies in the bucket's slots, and in which. */
    method Contains(ptr: nat, ghost v: View, ghost bucketSize: nat) returns (inside: bool, slot: nat)
      requires Ok(v) && ViewOk(v, bucketSize)
      ensures inside <==> Within(ptr, SpanOf(v))
      ensures inside ==> v.size > 0 && slot == (ptr - v.data) / v.size
    {
      hide Off, CountSet, SlotCount, Pow2;
      var start := data;
      var size := SlotOffset(slotCount, objectSize);
      var end := start + size;
      inside, slot := ptr >= start && ptr < end, 0;
      if inside {
        slot := (ptr - start) / objectSize;
      }
    }

    method Address(slot: nat, ghost v: View) returns (ptr: nat)
      requires Ok(v)
      ensures ptr == SlotAddr(v, slot)
    {
      var start := SlotOffset(slot, objectSize);
      ptr := data + start;
    }

    /** The count tells a full bucket and an empty one. */
    lemma Counts(v: View)
      requires Ok(v)
      ensures usedCount <= slotCount == |v.bits|
      ensures usedCount == slotCount <==> AllTaken(v)
      ensures usedCount == 0 <==> NoneTaken(v)
    {
      CountAll(v.bits, |v.bits|);
    }

    /** Takes the lowest free slot; in a bucket that is not full there is one. */
    method TakeSlot(ghost v: View) returns (slot: nat)
      requires Ok(v) && usedCount < slotCount
      modifies this`usedCount, used.bits
      ensures slot == FirstClear(v.bits, 0) < |v.bits| && Ok(v.(bits := v.bits[slot := true]))
    {
      slot := 0;
      CountAll(v.bits, |v.bits|);
      while slot < slotCount
        modifies {}
        invariant slot <= FirstClear(v.bits, 0)
      {
        var b := used.Get(slot);
        if !b {
          break;
        }
        slot := slot + 1;
      }
      if slot == slotCount {
        assert false;
      }
      CountFlip(v.bits, slot, true, |v.bits|);
      used.Set(slot);
      usedCount := usedCount + 1;
    }

    method GiveSlot(slot: nat, ghost v: View)
      requires Ok(v) && slot < |v.bits| && v.bits[slot]
      modifies this`usedCount, used.bits
      ensures Ok(v.(bits := v.bits[slot := false]))
    {
      CountAll(v.bits, |v.bits|);
      CountFlip(v.bits, slot, false, |v.bits|);
      used.Clear(slot);
      if usedCount > 0 {
        usedCount := usedCount - 1;
      }
    }
  }

  class LargeAlloc {
    var prev: LargeAlloc?
    var next: LargeAlloc?
    var slice: Slice

    constructor (slice: Slice)
      ensures this.slice == slice && prev == null && next == null
    {
      prev, next := null, null;
      this.slice := slice;
    }
  }

  // ---------------------------------------------------------------------------
  // Lists of buckets.

  ghost function PrevOf(cs: seq<Bucket>, i: int): Bucket?
    requires 0 <= i <= |cs|
  {
    if i == 0 then null else cs[i - 1]
  }

  ghost function NextOf(cs: seq<Bucket>, i: int): Bucket?
    requires -1 <= i < |cs|
  {
    if i + 1 == |cs| then null else cs[i + 1]
  }

  /** The links between `head` and `tail` spell the sequence in both directions. */
  ghost predicate Linked(cs: seq<Bucket>, head: Bucket?, tail: Bucket?)
    reads (set c | c in cs)`prev, (set c | c in cs)`next
  {
    && head == NextOf(cs, -1) && tail == PrevOf(cs, |cs|)
    && (forall i {:trigger PrevOf(cs, i)} :: 0 <= i < |cs| ==> cs[i].prev == PrevOf(cs, i))
    && (forall i {:trigger NextOf(cs, i)} :: 0 <= i < |cs| ==> cs[i].next == NextOf(cs, i))
    && (forall i, j :: 0 <= i < j < |cs| ==> cs[i] != cs[j])
  }

  ghost function Without<T>(s: seq<T>, i: int): seq<T>
    requires 0 <= i < |s|
  {
    s[..i] + s[i + 1..]
  }

  ghost predicate NoneTaken(v: View) { forall i :: 0 <= i < |v.bits| ==> !v.bits[i] }

  /** An empty bucket is the only one of its class. */
  ghost predicate EmptyIsSole(chains: seq<seq<Bucket>>, views: map<Bucket, View>, except: Bucket?) {
    forall b :: b in views && b != except && NoneTaken(views[b]) && views[b].cls < |chains| ==>
      |chains[views[b].cls]| == 1
  }

  /** The lists hold exactly the buckets of their class and the large blocks. */
  ghost predicate Listed(chains: seq<seq<Bucket>>, views: map<Bucket, View>, larges: seq<LargeAlloc>,
      metas: map<LargeAlloc, Slice>) {
    && |chains| == NUM_SMALL_BUCKETS
    && (forall i, b :: 0 <= i < |chains| && b in chains[i] ==> b in views && views[b].cls == i)
    && (forall b :: b in views ==> views[b].cls < |chains| && b in chains[views[b].cls])
    && (forall m :: m in larges ==> m in metas)
    && (forall m :: m in metas ==> m in larges)
  }

  /** No two buckets or large blocks overlap. */
  ghost predicate SpansOk(views: map<Bucket, View>, metas: map<LargeAlloc, Slice>, bucketSize: nat) {
    && (forall b :: b in views ==> ViewOk(views[b], bucketSize))
    && (forall b, c :: b in views && c in views && b != c ==> Apart(SpanOf(views[b]), SpanOf(views[c])))
    && (forall m :: m in metas ==> metas[m].ptr > 0 && metas[m].len > 0)
    && (forall m, n :: m in metas && n in metas && m != n ==> Apart(SliceSpan(metas[m]), SliceSpan(metas[n])))
    && (forall b, m :: b in views && m in metas ==> Apart(SpanOf(views[b]), SliceSpan(metas[m])))
  }

  ghost function PrevLarge(ms: seq<LargeAlloc>, i: int): LargeAlloc?
    requires 0 <= i <= |ms|
  {
    if i == 0 then null else ms[i - 1]
  }

  ghost function NextLarge(ms: seq<LargeAlloc>, i: int): LargeAlloc?
    requires -1 <= i < |ms|
  {
    if i + 1 == |ms| then null else ms[i + 1]
  }

  ghost predicate LinkedLarge(ms: seq<LargeAlloc>, head: LargeAlloc?)
    reads (set m | m in ms)`prev, (set m | m in ms)`next
  {
    && head == NextLarge(ms, -1)
    && (forall i {:trigger PrevLarge(ms, i)} :: 0 <= i < |ms| ==> ms[i].prev == PrevLarge(ms, i))
    && (forall i {:trigger NextLarge(ms, i)} :: 0 <= i < |ms| ==> ms[i].next == NextLarge(ms, i))
    && (forall i, j :: 0 <= i < j < |ms| ==> ms[i] != ms[j])
  }

  /** Whose bytes a pointer points at. */
  datatype Owner = Slot(bucket: Bucket, slot: nat) | Block(meta: LargeAlloc) | Nobody

  ghost predicate Owns(views: map<Bucket, View>, metas: map<LargeAlloc, Slice>, owner: Owner, mem: Slice) {
    match owner
    case Slot(b, i) => b in views && i < |views[b].bits| && views[b].bits[i] && mem.ptr == SlotAddr(views[b], i) &&
      mem.len <= views[b].size
    case Block(m) => m in metas && metas[m] == mem
    case Nobody =>
      && (forall b :: b in views ==> !Within(mem.ptr, SpanOf(views[b])))
      && (forall m :: m in metas ==> metas[m].ptr != mem.ptr)
  }

  /** Where a search for the bucket of `ptr` may end. */
  ghost predicate Found(views: map<Bucket, View>, ptr: nat, bucket: Bucket?, slot: nat) {
    if bucket == null then forall b :: b in views ==> !Within(ptr, SpanOf(views[b]))
    else bucket in views && views[bucket].size > 0 && Within(ptr, SpanOf(views[bucket])) &&
         slot == (ptr - views[bucket].data) / views[bucket].size
  }

  /** The search finds exactly the bucket and slot of a small pointer, and nothing
      for any other. */
  lemma FoundIsOwner(views: map<Bucket, View>, metas: map<LargeAlloc, Slice>, bucketSize: nat, owner: Owner, mem: Slice,
      bucket: Bucket?, slot: nat)
    requires SpansOk(views, metas, bucketSize) && Owns(views, metas, owner, mem) && Found(views, mem.ptr, bucket, slot)
    ensures if owner.Slot? then bucket == owner.bucket && slot == owner.slot else bucket == null
    ensures !owner.Nobody? ==> mem.ptr > 0
  {
    hide Off, Pow2;
    match owner
    case Slot(b, i) =>
      assert ViewOk(views[b], bucketSize);
      SlotOf(views[b], i);
      assert bucket != b && bucket != null ==> Apart(SpanOf(views[b]), SpanOf(views[bucket]));
    case Block(m) =>
      assert bucket != null ==> Apart(SpanOf(views[bucket]), SliceSpan(metas[m]));
    case Nobody =>
  }

  /** No two live allocations share a byte. */
  lemma OwnersAreApart(views: map<Bucket, View>, metas: map<LargeAlloc, Slice>, bucketSize: nat,
      o: Owner, m: Slice, p: Owner, n: Slice)
    requires SpansOk(views, metas, bucketSize) && !o.Nobody? && !p.Nobody? && o != p
    requires Owns(views, metas, o, m) && Owns(views, metas, p, n)
    ensures Apart(SliceSpan(m), SliceSpan(n))
  {
    hide Off, Pow2;
    if o.Slot? {
      assert ViewOk(views[o.bucket], bucketSize);
      SlotOf(views[o.bucket], o.slot);
    }
    if p.Slot? {
      assert ViewOk(views[p.bucket], bucketSize);
      SlotOf(views[p.bucket], p.slot);
    }
    if o.Slot? && p.Slot? && o.bucket == p.bucket {
      if o.slot < p.slot {
        SlotsApart(views[o.bucket], o.slot, p.slot);
      } else {
        SlotsApart(views[o.bucket], p.slot, o.slot);
      }
    }
  }

  ghost predicate BucketsOk(views: map<Bucket, View>)
    reads (set b | b in views)`usedCount, (set b | b in views :: b.used.bits)
  {
    && (forall b :: b in views ==> b.Ok(views[b]))
    && (forall b, c :: b in views && c in views && b != c ==> b.used.bits != c.used.bits)
  }

  ghost predicate ListsOk(chains: seq<seq<Bucket>>, heads: array<Bucket?>, tails: array<Bucket?>)
    reads heads, tails
    reads (set i, c | 0 <= i < |chains| && c in chains[i] :: c)`prev,
      (set i, c | 0 <= i < |chains| && c in chains[i] :: c)`next
  {
    && heads.Length == tails.Length == NUM_SMALL_BUCKETS == |chains| && heads != tails
    && forall i :: 0 <= i < |chains| ==> Linked(chains[i], heads[i], tails[i])
  }

  ghost predicate LargesOk(larges: seq<LargeAlloc>, metas: map<LargeAlloc, Slice>, head: LargeAlloc?)
    reads (set m | m in metas)`slice, (set m | m in larges)`prev, (set m | m in larges)`next
  {
    (forall m :: m in metas ==> m.slice == metas[m]) && LinkedLarge(larges, head)
  }

  /** Two blocks are held for every bucket, its bitmap being one, and two for every
      large block, its list node being one. */
  ghost predicate Held(views: map<Bucket, View>, larges: seq<LargeAlloc>, blocks: nat) {
    blocks == 2 * (|views| + |larges|)
  }

  lemma AddedCounts(views: map<Bucket, View>, larges: seq<LargeAlloc>, blocks: nat, b: Bucket, v: View)
    requires Held(views, larges, blocks) && b !in views
    ensures Held(views[b := v], larges, blocks + 2)
  {
  }

  lemma JoinedCounts(cs: seq<seq<Bucket>>, vs: map<Bucket, View>, cs': seq<seq<Bucket>>, vs': map<Bucket, View>,
      larges: seq<LargeAlloc>, idx: nat, data: nat, bucketSize: nat, b: Bucket, blocks: nat)
    requires Held(vs, larges, blocks) && Joined(cs, vs, cs', vs', idx, data, bucketSize, b)
    ensures Held(vs', larges, blocks + 2)
  {
    AddedCounts(vs, larges, blocks, b, NewView(idx, data, bucketSize));
  }

  lemma AdoptedCounts(views: map<Bucket, View>, larges: seq<LargeAlloc>, blocks: nat, m: LargeAlloc)
    requires Held(views, larges, blocks)
    ensures Held(views, [m] + larges, blocks + 2)
  {
  }

  lemma SlotCounts(views: map<Bucket, View>, larges: seq<LargeAlloc>, blocks: nat, b: Bucket, v: View)
    requires Held(views, larges, blocks) && b in views
    ensures Held(views[b := v], larges, blocks)
  {
  }

  lemma DroppedCounts(views: map<Bucket, View>, larges: seq<LargeAlloc>, blocks: nat, b: Bucket)
    requires Held(views, larges, blocks) && b in views
    ensures blocks >= 2 && Held(views - {b}, larges, blocks - 2)
  {
    assert views == (views - {b})[b := views[b]];
  }

  lemma NoneLinked()
    ensures Linked([], null, null)
  {
  }

  /** The buckets of class `i` and above. */
  ghost function FromClass(views: map<Bucket, View>, i: nat): set<Bucket> {
    set b | b in views && views[b].cls >= i
  }

  lemma AllFromClass(views: map<Bucket, View>)
    ensures FromClass(views, 0) == views.Keys
  {
  }

  lemma ClassCount(chains: seq<seq<Bucket>>, views: map<Bucket, View>, larges: seq<LargeAlloc>,
      metas: map<LargeAlloc, Slice>)
    requires Listed(chains, views, larges, metas)
    ensures |chains| == NUM_SMALL_BUCKETS
  {
  }

  ghost function Visited(cs: seq<Bucket>, j: nat): set<Bucket>
    requires j <= |cs|
  {
    set c | c in cs[..j]
  }

  lemma NoneVisited(left: map<Bucket, View>, cs: seq<Bucket>)
    ensures left.Keys == left.Keys - Visited(cs, 0)
  {
  }

  lemma OneVisited(chains: seq<seq<Bucket>>, views: map<Bucket, View>, larges: seq<LargeAlloc>, metas: map<LargeAlloc,
      Slice>, i: nat, left: map<Bucket, View>, rest: map<Bucket, View>, head: Bucket?, tail: Bucket?, j: nat)
    requires Listed(chains, views, larges, metas) && i < |chains| && j < |chains[i]|
    requires Linked(chains[i], head, tail)
    requires left.Keys == FromClass(views, i) && rest.Keys == left.Keys - Visited(chains[i], j)
    ensures chains[i][j] in rest && (rest - {chains[i][j]}).Keys == left.Keys - Visited(chains[i], j + 1)
  {
    var cs := chains[i];
    assert cs[j] in cs && cs[..j + 1] == cs[..j] + [cs[j]];
  }

  lemma ClassVisited(chains: seq<seq<Bucket>>, views: map<Bucket, View>, larges: seq<LargeAlloc>,
      metas: map<LargeAlloc, Slice>, i: nat)
    requires Listed(chains, views, larges, metas) && i < |chains|
    ensures FromClass(views, i) - Visited(chains[i], |chains[i]|) == FromClass(views, i + 1)
  {
    assert chains[i][..|chains[i]|] == chains[i];
  }

  lemma NoBuckets(chains: seq<seq<Bucket>>, views: map<Bucket, View>, larges: seq<LargeAlloc>,
      metas: map<LargeAlloc, Slice>, bucketSize: nat, left: map<Bucket, View>, blocks: nat)
    requires Listed(chains, views, larges, metas) && SpansOk(views, metas, bucketSize)
    requires Held(left, larges, blocks) && left.Keys == FromClass(views, NUM_SMALL_BUCKETS)
    ensures Held(map[], larges, blocks)
    ensures Listed(seq(NUM_SMALL_BUCKETS, _ => []), map[], larges, metas) && SpansOk(map[], metas, bucketSize)
    ensures BucketsOk(map[]) && EmptyIsSole(seq(NUM_SMALL_BUCKETS, _ => []), map[], null)
  {
    assert left.Keys == {};
    assert left == map[];
  }

  lemma NothingHeld(chains: seq<seq<Bucket>>, views: map<Bucket, View>, larges: seq<LargeAlloc>,
      metas: map<LargeAlloc, Slice>, blocks: nat)
    requires Listed(chains, views, larges, metas) && Held(views, larges, blocks) && views == map[] && larges == []
    ensures metas == map[] && blocks == 0
  {
  }

  lemma ShorterWithout(larges: seq<LargeAlloc>, m: LargeAlloc)
    requires m in larges
    ensures |Without(larges, IndexOf(larges, m))| < |larges|
  {
  }

  lemma ReleasedCounts(views: map<Bucket, View>, larges: seq<LargeAlloc>, blocks: nat, j: nat)
    requires Held(views, larges, blocks) && j < |larges|
    ensures blocks >= 2 && Held(views, Without(larges, j), blocks - 2)
  {
  }

  class GPAllocator {
    const smallBuckets: array<Bucket?>
    const smallBucketTails: array<Bucket?>
    var largeAllocs: LargeAlloc?
    const bucketSize: nat
    // The bytes at all addresses.
    var mem: nat -> nat
    // The buckets of each class and the large blocks, in list order.
    ghost var chains: seq<seq<Bucket>>
    ghost var views: map<Bucket, View>
    ghost var larges: seq<LargeAlloc>
    ghost var metas: map<LargeAlloc, Slice>
    ghost var repr: set<object>
    // Blocks obtained from the backing allocator and not given back.
    ghost var blocks: nat

    ghost predicate ReprOk()
      reads this
    {
      && this in repr && smallBuckets in repr && smallBucketTails in repr
      && (forall b :: b in views ==> b in repr && b.used.bits in repr)
      && (forall m :: m in metas ==> m in repr)
    }

    ghost predicate Core()
      reads this, repr
    {
      && bucketSize > 0 && ReprOk()
      && Listed(chains, views, larges, metas) && SpansOk(views, metas, bucketSize)
      && BucketsOk(views) && ListsOk(chains, smallBuckets, smallBucketTails) && LargesOk(larges, metas, largeAllocs)
    }

    ghost predicate Consistent()
      reads this, repr
    {
      Core() && EmptyIsSole(chains, views, null)
    }

    ghost predicate Valid()
      reads this, repr
    {
      Consistent() && Held(views, larges, blocks)
    }

    constructor (bucketSize: nat)
      ensures Valid() && views == map[] && metas == map[] && larges == [] && fresh(repr)
      ensures chains == seq(NUM_SMALL_BUCKETS, _ => [])
      ensures this.bucketSize == if bucketSize == 0 then BUCKET_SIZE else bucketSize
    {
      this.bucketSize := if bucketSize == 0 then BUCKET_SIZE else bucketSize;
      smallBuckets := new Bucket?[NUM_SMALL_BUCKETS](_ => null);
      smallBucketTails := new Bucket?[NUM_SMALL_BUCKETS](_ => null);
      largeAllocs := null;
      mem := _ => 0;
      chains := seq(NUM_SMALL_BUCKETS, _ => []);
      views, larges, metas, blocks := map[], [], map[], 0;
      new;
      repr := {this, smallBuckets, smallBucketTails};
    }

    /** Records the buckets there are now. */
    ghost method SetBook(cs: seq<seq<Bucket>>, vs: map<Bucket, View>)
      requires bucketSize > 0 && ReprOk() && forall b :: b in vs ==> b in repr && b.used.bits in repr
      requires Listed(cs, vs, larges, metas) && SpansOk(vs, metas, bucketSize)
      requires BucketsOk(vs) && ListsOk(cs, smallBuckets, smallBucketTails) && LargesOk(larges, metas, largeAllocs)
      modifies `chains, `views
      ensures Core() && chains == cs && views == vs
    {
      hide SpansOk, Listed, BucketsOk, ListsOk, LargesOk;
      chains, views := cs, vs;
    }

    /** Records the large blocks there are now. */
    ghost method SetLarges(ms: seq<LargeAlloc>, mt: map<LargeAlloc, Slice>)
      requires bucketSize > 0 && ReprOk() && forall m :: m in mt ==> m in repr
      requires Listed(chains, views, ms, mt) && SpansOk(views, mt, bucketSize)
      requires BucketsOk(views) && ListsOk(chains, smallBuckets, smallBucketTails) && LargesOk(ms, mt, largeAllocs)
      modifies `larges, `metas
      ensures Core() && larges == ms && metas == mt
    {
      hide SpansOk, Listed, BucketsOk, ListsOk, LargesOk;
      larges, metas := ms, mt;
    }

    /** All list nodes belong to the allocator. */
    lemma Footprint()
      requires Core()
      ensures forall i, c :: 0 <= i < |chains| && c in chains[i] ==> c in repr
      ensures forall m :: m in larges ==> m in repr
    {
    }

    method FindBucket(ptr: nat) returns (bucket: Bucket?, slot: nat)
      requires Core()
      ensures Found(views, ptr, bucket, slot)
    {
      hide Off, Pow2, SpansOk, Within, SpanOf, ListsOk, BucketsOk, LargesOk, Held;
      bucket, slot := null, 0;
      for i := 0 to NUM_SMALL_BUCKETS
        invariant bucket == null
        invariant forall b :: b in views && views[b].cls < i ==> !Within(ptr, SpanOf(views[b]))
      {
        bucket, slot := FindInClass(i, ptr);
        if bucket != null {
          return;
        }
      }
    }

    /** The search among the buckets of one class. */
    method FindInClass(i: nat, ptr: nat) returns (bucket: Bucket?, slot: nat)
      requires Core() && i < NUM_SMALL_BUCKETS
      ensures bucket == null ==> forall b :: b in chains[i] ==> !Within(ptr, SpanOf(views[b]))
      ensures bucket != null ==> Found(views, ptr, bucket, slot)
    {
      hide Off, Pow2, LargesOk, Bucket.Ok, ViewOk, SpanOf, Within, Held;
      bucket, slot := smallBuckets[i], 0;
      ghost var cs, j := chains[i], 0;
      while bucket != null
        invariant 0 <= j <= |cs| && bucket == NextOf(cs, j - 1)
        invariant forall l :: 0 <= l < j ==> !Within(ptr, SpanOf(views[cs[l]]))
        decreases |cs| - j
      {
        assert bucket == cs[j] && bucket in chains[i];
        var inside;
        inside, slot := bucket.Contains(ptr, views[bucket], bucketSize);
        if inside {
          return;
        }
        assert bucket.next == NextOf(cs, j);
        bucket := bucket.next;
        j := j + 1;
      }
    }

    method FindLarge(ptr: nat) returns (meta: LargeAlloc?)
      requires Core()
      ensures meta == null ==> forall m :: m in metas ==> metas[m].ptr != ptr
      ensures meta != null ==> meta in metas && metas[meta].ptr == ptr
    {
      meta := largeAllocs;
      ghost var j := 0;
      while meta != null
        invariant 0 <= j <= |larges| && meta == NextLarge(larges, j - 1)
        invariant forall l :: 0 <= l < j ==> metas[larges[l]].ptr != ptr
        decreases |larges| - j
      {
        assert meta == larges[j] && meta in larges;
        if meta.slice.ptr == ptr {
          return;
        }
        assert meta.next == NextLarge(larges, j);
        meta := meta.next;
        j := j + 1;
      }
    }

    /** Hangs a new bucket behind the last one of its class. */
    method LinkAtTail(bucket: Bucket, idx: nat)
      requires Listed(chains, views, larges, metas) && ListsOk(chains, smallBuckets, smallBucketTails) &&
        idx < NUM_SMALL_BUCKETS && bucket !in views
      modifies smallBuckets, smallBucketTails, bucket`prev, bucket`next, (set c | c in chains[idx])`next
      ensures forall i :: 0 <= i < |chains| && i != idx ==> Linked(chains[i], smallBuckets[i], smallBucketTails[i])
      ensures Linked(chains[idx] + [bucket], smallBuckets[idx], smallBucketTails[idx])
    {
      hide Linked;
      ghost var cs := chains[idx];
      assert bucket !in cs;
      ClassesAreApart(chains, views, larges, metas, idx);
      var prev := smallBucketTails[idx];
      LinkBehind(bucket, prev, cs, smallBuckets[idx]);
      if prev == null {
        smallBuckets[idx] := bucket;
      }
      smallBucketTails[idx] := bucket;
      forall i | 0 <= i < |chains| && i != idx ensures Linked(chains[i], smallBuckets[i], smallBucketTails[i]) {
        assert old(Linked(chains[i], smallBuckets[i], smallBucketTails[i]));
        assert forall c :: c in chains[i] ==> c !in cs && c != bucket;
      }
    }

    /** Takes a bucket out of the list of its class. */
    method Unlink(bucket: Bucket, idx: nat, ghost j: nat)
      requires Listed(chains, views, larges, metas) && ListsOk(chains, smallBuckets, smallBucketTails) &&
        idx < NUM_SMALL_BUCKETS
      requires j < |chains[idx]| && bucket == chains[idx][j]
      modifies smallBuckets, smallBucketTails, (set c | c in chains[idx])`prev, (set c | c in chains[idx])`next
      ensures forall i :: 0 <= i < |chains| && i != idx ==> Linked(chains[i], smallBuckets[i], smallBucketTails[i])
      ensures Linked(Without(chains[idx], j), smallBuckets[idx], smallBucketTails[idx])
    {
      hide Linked;
      ghost var cs := chains[idx];
      ClassesAreApart(chains, views, larges, metas, idx);
      var prev, next := bucket.prev, bucket.next;
      LinkAround(bucket, cs, smallBuckets[idx], smallBucketTails[idx], j);
      if prev == null {
        smallBuckets[idx] := next;
      }
      if next == null {
        smallBucketTails[idx] := prev;
      }
      forall i | 0 <= i < |chains| && i != idx ensures Linked(chains[i], smallBuckets[i], smallBucketTails[i]) {
        assert old(Linked(chains[i], smallBuckets[i], smallBucketTails[i]));
        assert forall c :: c in chains[i] ==> c !in cs;
      }
    }

    /** Puts an empty bucket at the tail of its class, whose head is full. */
    method Append(bucket: Bucket, idx: nat, ghost v: View)
      requires Consistent() && idx < NUM_SMALL_BUCKETS && !HasRoom(chains, views, idx)
      requires bucket !in repr && bucket.used.bits !in repr && bucket.Ok(v) && v.cls == idx
      requires ViewOk(v, bucketSize) && FreshFor(views, metas, SpanOf(v))
      modifies repr, bucket
      ensures bucket !in old(views)
      ensures Core() && repr == old(repr) + {bucket, bucket.used.bits}
      ensures EmptyIsSole(chains, views, bucket)
      ensures chains == old(chains)[idx := old(chains)[idx] + [bucket]] && views == old(views)[bucket := v]
      ensures larges == old(larges) && metas == old(metas) && mem == old(mem) && blocks == old(blocks)
    {
      hide SpansOk, Listed, EmptyIsSole, SpanOf, Bucket.Ok, Linked, LinkedLarge, ViewOk, FreshFor, HasRoom, Pow2, Off,
        BucketsOk, LargesOk;
      AppendKeepsListed(chains, views, larges, metas, bucket, idx, v);
      AppendKeepsSpans(views, metas, bucketSize, bucket, v);
      AppendKeepsEmpty(chains, views, larges, metas, bucketSize, bucket, idx, v);
      Footprint();
      LinkAtTail(bucket, idx);
      AppendKeepsBuckets(views, bucket, v);
      chains := chains[idx := chains[idx] + [bucket]];
      views := views[bucket := v];
      repr := repr + {bucket, bucket.used.bits};
    }

    /** `cu_gpa_create_bucket` and the links around it. `data` and `bitmap` are the
        backing allocator's answers; what the first granted is given back when the
        second is refused. */
    method AddBucket(objSize: nat, idx: nat, data: Option<nat>, bitmap: bool) returns (bucket: Bucket?)
      requires Valid() && idx < NUM_SMALL_BUCKETS && !HasRoom(chains, views, idx) && objSize == Pow2(idx)
      requires data.Some? ==> FreshFor(views, metas, SpanOf(NewView(idx, data.value, bucketSize)))
      modifies repr
      ensures larges == old(larges) && metas == old(metas) && mem == old(mem) && fresh(repr - old(repr))
      ensures bucket == null <==> data.None? || !bitmap
      ensures bucket == null ==> Valid() && views == old(views) && chains == old(chains)
      ensures bucket != null ==>
        && Core() && EmptyIsSole(chains, views, bucket) && Held(views, larges, blocks)
        && bucket in views && !AllTaken(views[bucket])
        && data.Some? && Joined(old(chains), old(views), chains, views, idx, data.value, bucketSize, bucket)
    {
      hide SpanOf, Listed, SpansOk, BucketsOk, ListsOk, LargesOk, EmptyIsSole, HasRoom, FreshFor, Held, NewView,
        AllTaken, Pow2;
      var slotCount := CalcSlotCount(objSize);
      bucket := null;
      ghost var granted := 0;
      if data.Some? {
        granted := granted + 1;
        if bitmap {
          granted := granted + 1;
          bucket := Install(objSize, slotCount, idx, data.value);
          JoinedCounts(old(chains), old(views), chains, views, larges, idx, data.value, bucketSize, bucket, blocks);
        } else {
          granted := granted - 1;
        }
      }
      blocks := blocks + granted;
    }

    method Install(objSize: nat, slotCount: nat, idx: nat, data: nat) returns (bucket: Bucket)
      requires Consistent() && idx < NUM_SMALL_BUCKETS && !HasRoom(chains, views, idx) && objSize == Pow2(idx)
      requires slotCount == SlotCount(bucketSize, objSize)
      requires FreshFor(views, metas, SpanOf(NewView(idx, data, bucketSize)))
      modifies repr
      ensures larges == old(larges) && metas == old(metas) && mem == old(mem) && fresh(repr - old(repr))
      ensures blocks == old(blocks)
      ensures Core() && EmptyIsSole(chains, views, bucket) && bucket in views && !AllTaken(views[bucket])
      ensures Joined(old(chains), old(views), chains, views, idx, data, bucketSize, bucket)
    {
      hide SpanOf, Bucket.Ok, SpansOk, BucketsOk, ListsOk, LargesOk, EmptyIsSole, HasRoom, FreshFor;
      NewViewOk(views, metas, idx, data, bucketSize);
      bucket := new Bucket(data, objSize, slotCount, idx);
      assert !NewView(idx, data, bucketSize).bits[0];
      Append(bucket, idx, NewView(idx, data, bucketSize));
    }

    method CalcSlotCount(objSize: nat) returns (count: nat)
      requires objSize > 0
      ensures bucketSize > 0 ==> count == SlotCount(bucketSize, objSize)
    {
      var maxData := bucketSize;
      if maxData == 0 {
        maxData := BUCKET_SIZE;
      }
      count := SlotsIn(maxData, objSize);
      if count == 0 {
        count := 1;
      }
    }

    /** Takes the lowest free slot of a bucket that has one. */
    method TakeIn(bucket: Bucket) returns (slot: nat)
      requires Core() && EmptyIsSole(chains, views, bucket) && Held(views, larges, blocks)
      requires bucket in views && !AllTaken(views[bucket])
      modifies repr
      ensures Valid() && repr == old(repr) && slot == FirstClear(old(views)[bucket].bits, 0) < |old(views)[bucket].bits|
      ensures views == old(views)[bucket := WithSlot(old(views)[bucket], slot, true)]
      ensures chains == old(chains) && larges == old(larges) && metas == old(metas) && mem == old(mem)
    {
      hide SpanOf, Bucket.Ok, Listed, SpansOk, EmptyIsSole, Linked, LinkedLarge, Held;
      bucket.Counts(views[bucket]);
      slot := bucket.TakeSlot(views[bucket]);
      SlotCounts(views, larges, blocks, bucket, WithSlot(views[bucket], slot, true));
      views := views[bucket := WithSlot(views[bucket], slot, true)];
      SlotKeepsBook(chains, old(views), larges, metas, bucketSize, bucket, slot, true);
    }

    /** Only the head bucket of a class is looked at; when it is missing or full, a
        new bucket joins at the tail. */
    method PickBucket(objSize: nat, idx: nat, data: Option<nat>, bitmap: bool) returns (bucket: Bucket?)
      requires Valid() && idx < NUM_SMALL_BUCKETS && objSize == Pow2(idx)
      requires data.Some? ==> FreshFor(views, metas, SpanOf(NewView(idx, data.value, bucketSize)))
      modifies repr
      ensures metas == old(metas) && larges == old(larges) && mem == old(mem) && fresh(repr - old(repr))
      ensures bucket == null <==> !HasRoom(old(chains), old(views), idx) && (data.None? || !bitmap)
      ensures bucket == null ==> Valid() && views == old(views) && chains == old(chains)
      ensures bucket != null ==>
        && Core() && EmptyIsSole(chains, views, bucket) && Held(views, larges, blocks)
        && bucket in views && !AllTaken(views[bucket])
        && Picked(old(chains), old(views), chains, views, idx, data, bucketSize, bucket)
    {
      hide SpanOf, Bucket.Ok, Listed, SpansOk, LinkedLarge, LargesOk, Pow2, Off, FreshFor, AllTaken, NoneTaken,
        NewView, Held;
      bucket := smallBuckets[idx];
      HeadOf(idx);
      if bucket == null || bucket.usedCount == bucket.slotCount {
        bucket := AddBucket(objSize, idx, data, bitmap);
      }
    }

    method AllocSmall(size: nat, objSize: nat, idx: nat, data: Option<nat>, bitmap: bool)
        returns (r: Result, ghost owner: Owner)
      requires Valid() && idx < NUM_SMALL_BUCKETS && objSize == Pow2(idx) && size <= objSize
      requires data.Some? ==> FreshFor(views, metas, SpanOf(NewView(idx, data.value, bucketSize)))
      modifies repr
      ensures Valid() && fresh(repr - old(repr))
      ensures metas == old(metas) && larges == old(larges) && mem == old(mem)
      ensures r == Err(OutOfMemory) <==> !HasRoom(old(chains), old(views), idx) && (data.None? || !bitmap)
      ensures r.Err? ==> r == Err(OutOfMemory) && views == old(views) && chains == old(chains)
      ensures r.Ok? ==> owner.Slot? && SmallServed(old(chains), old(views), chains, views, idx, data, bucketSize, size,
        owner, r.slice)
    {
      hide SpanOf, Bucket.Ok, SpansOk, EmptyIsSole, ListsOk, LargesOk, Pow2, Off, FreshFor, AllTaken, HasRoom, Picked,
        Held;
      var bucket := PickBucket(objSize, idx, data, bitmap);
      owner := Nobody;
      if bucket == null {
        return Err(OutOfMemory), owner;
      }
      ghost var cs, vs := chains, views;
      var slot := TakeIn(bucket);
      var ptr := bucket.Address(slot, views[bucket]);
      r, owner := Ok(Slice(ptr, size)), Slot(bucket, slot);
      PickedThenTaken(old(chains), old(views), cs, vs, idx, data, bucketSize, size, bucket, slot);
    }

    /** The head of a class is what its first list entry says. */
    lemma HeadOf(idx: nat)
      requires Core() && idx < NUM_SMALL_BUCKETS
      ensures smallBuckets[idx] == null <==> chains[idx] == []
      ensures smallBuckets[idx] != null ==>
        var b := smallBuckets[idx];
        b == chains[idx][0] && b in views && b in repr && (b.usedCount == b.slotCount <==> !HasRoom(chains, views, idx))
    {
      if chains[idx] != [] {
        var b := chains[idx][0];
        assert b in chains[idx] && b.Ok(views[b]);
        b.Counts(views[b]);
      }
    }

    /** Lists a new large block first. */
    method Adopt(meta: LargeAlloc)
      requires Consistent() && meta !in repr && meta.prev == null
      requires meta.slice.len > 0 && FreshFor(views, metas, SliceSpan(meta.slice))
      modifies `largeAllocs, `larges, `metas, `repr, meta`next, (set m | m in larges)`prev
      ensures Consistent() && meta !in old(metas) && repr == old(repr) + {meta}
      ensures larges == [meta] + old(larges) && metas == old(metas)[meta := meta.slice]
    {
      hide SpanOf, SpansOk, EmptyIsSole, BucketsOk, ListsOk, LinkedLarge, FreshFor, ViewOk, Pow2, Off, Listed;
      Footprint();
      LargeKeepsSpans(views, metas, bucketSize, meta, meta.slice);
      LargeKeepsListed(chains, views, larges, metas, meta, meta.slice);
      LinkBefore(meta, largeAllocs, larges);
      largeAllocs := meta;
      larges, metas, repr := [meta] + larges, metas[meta := meta.slice], repr + {meta};
    }

    /** `data` and `record` are the backing allocator's answers for the block and for
        the list node that stands for it; what the first granted is given back when
        the second is refused. */
    method AllocLarge(size: nat, data: Option<nat>, record: bool) returns (r: Result, ghost owner: Owner)
      requires Valid() && size > 0
      requires data.Some? ==> FreshFor(views, metas, Span(data.value, data.value + size))
      modifies repr
      ensures Valid() && fresh(repr - old(repr))
      ensures views == old(views) && chains == old(chains) && mem == old(mem)
      ensures r == Err(OutOfMemory) <==> data.None? || !record
      ensures r.Err? ==> r == Err(OutOfMemory) && metas == old(metas) && larges == old(larges)
      ensures r.Ok? ==> owner.Block? && LargeServed(old(larges), old(metas), larges, metas, data, size, owner, r.slice)
    {
      hide SpanOf, Listed, SpansOk, EmptyIsSole, BucketsOk, ListsOk, LargesOk, FreshFor, Held;
      Footprint();
      r, owner := Err(OutOfMemory), Nobody;
      ghost var granted := 0;
      if data.Some? {
        granted := granted + 1;
        if record {
          granted := granted + 1;
          var meta := new LargeAlloc(Slice(data.value, size));
          AdoptedCounts(views, larges, blocks, meta);
          Adopt(meta);
          r, owner := Ok(meta.slice), Block(meta);
        } else {
          granted := granted - 1;
        }
      }
      blocks := blocks + granted;
    }

    method Alloc(size: nat, alignment: nat, data: Option<nat>, extra: bool) returns (r: Result, ghost owner: Owner)
      requires Valid() && Max(size, Align(alignment)) <= WORD_LIMIT / 2
      requires data.Some? ==> FreshFor(views, metas, Asked(size, Align(alignment), bucketSize, data.value))
      modifies repr
      ensures Valid() && fresh(repr - old(repr)) && mem == old(mem)
      ensures r == Err(InvalidInput) <==> size == 0
      ensures r.Err? ==> views == old(views) && chains == old(chains) && metas == old(metas) && larges == old(larges)
      ensures r.Ok? ==> Served(old(chains), old(views), old(larges), old(metas), chains, views, larges, metas,
                               size, Align(alignment), data, bucketSize, owner, r.slice)
      ensures r.Err? <==>
        size == 0 || Refused(old(chains), old(views), size, Align(alignment), data.Some? && extra, bucketSize)
    {
      hide SpanOf, SpansOk, EmptyIsSole, BucketsOk, ListsOk, LargesOk, FreshFor, Pow2, CeilPow2, Log2, HasRoom,
        SmallServed, LargeServed, Held;
      if size == 0 {
        return Err(InvalidInput), Nobody;
      }
      var align := if alignment == 0 then 1 else alignment;
      var need := Max(size, align);
      var objSize := NextPow2Size(need);
      ObjSizeIs(need);
      var idx := IndexFromSize(objSize);
      if idx < 0 || objSize > bucketSize {
        r, owner := AllocLarge(size, data, extra);
      } else {
        r, owner := AllocSmall(size, objSize, idx, data, extra);
      }
    }

    method ReleaseSlot(bucket: Bucket, slot: nat)
      requires Valid() && bucket in views && slot < |views[bucket].bits| && views[bucket].bits[slot]
      modifies `views, bucket`usedCount, bucket.used.bits
      ensures Core() && EmptyIsSole(chains, views, bucket) && Held(views, larges, blocks)
      ensures views == old(views)[bucket := WithSlot(old(views)[bucket], slot, false)]
    {
      hide SpanOf, Bucket.Ok, Listed, SpansOk, ListsOk, LargesOk, Held;
      SlotCounts(views, larges, blocks, bucket, WithSlot(views[bucket], slot, false));
      SlotKeepsBook(chains, views, larges, metas, bucketSize, bucket, slot, false);
      bucket.GiveSlot(slot, views[bucket]);
      views := views[bucket := WithSlot(views[bucket], slot, false)];
    }

    /** Takes an empty bucket that is not alone in its class out of it, and gives its
        bitmap and itself back. */
    method DropBucket(bucket: Bucket, idx: nat)
      requires Core() && EmptyIsSole(chains, views, bucket) && Held(views, larges, blocks)
      requires bucket in views && idx == views[bucket].cls < |chains| && |chains[idx]| > 1
      modifies repr
      ensures Valid() && repr == old(repr) && larges == old(larges) && metas == old(metas) && mem == old(mem)
      ensures bucket in old(chains)[idx] && views == old(views) - {bucket}
      ensures chains == old(chains)[idx := Without(old(chains)[idx], IndexOf(old(chains)[idx], bucket))]
    {
      hide SpanOf, Listed, SpansOk, BucketsOk, ListsOk, LargesOk, EmptyIsSole, Without, IndexOf, Held;
      DroppedCounts(views, larges, blocks, bucket);
      TakeOut(bucket, idx);
      blocks := blocks - 2;
    }

    method TakeOut(bucket: Bucket, idx: nat)
      requires Core() && EmptyIsSole(chains, views, bucket) && bucket in views && idx == views[bucket].cls < |chains|
      requires |chains[idx]| > 1
      modifies repr
      ensures Consistent() && repr == old(repr) && larges == old(larges) && metas == old(metas) && mem == old(mem)
      ensures bucket in old(chains)[idx] && views == old(views) - {bucket} && blocks == old(blocks)
      ensures chains == old(chains)[idx := Without(old(chains)[idx], IndexOf(old(chains)[idx], bucket))]
    {
      hide SpanOf, SpansOk, EmptyIsSole, Linked, LargesOk, BucketsOk, Without, IndexOf;
      Footprint();
      ghost var j := IndexOf(chains[idx], bucket);
      NoneTwice(chains[idx], smallBuckets[idx], smallBucketTails[idx]);
      DropKeepsBook(chains, views, larges, metas, bucketSize, bucket);
      Unlink(bucket, idx, j);
      assert BucketsOk(views);
      assert LargesOk(larges, metas, largeAllocs);
      BucketsOkFewer(views, bucket);
      SetBook(chains[idx := Without(chains[idx], j)], views - {bucket});
    }

    /** A bucket that became empty goes back to the backing allocator unless it is
        the only one of its class. */
    method Retire(bucket: Bucket)
      requires Core() && EmptyIsSole(chains, views, bucket) && Held(views, larges, blocks) && bucket in views
      modifies repr
      ensures Valid() && repr == old(repr) && larges == old(larges) && metas == old(metas) && mem == old(mem)
      ensures Retired(old(chains), old(views), chains, views, bucket)
    {
      hide SpanOf, Bucket.Ok, SpansOk, BucketsOk, ListsOk, LargesOk, IndexOf, NoneTaken, EmptyIsSole, Listed, Without,
        Held;
      CountsOf(bucket);
      if bucket.usedCount == 0 {
        var idx := IndexFromSize(bucket.objectSize);
        IsSole(bucket);
        if smallBuckets[idx] != bucket || bucket.next != null {
          DropBucket(bucket, idx);
          return;
        }
      }
      NothingToRetire(chains, views, bucket);
    }

    method FreeSmall(bucket: Bucket, slot: nat)
      requires Valid() && bucket in views && slot < |views[bucket].bits| && views[bucket].bits[slot]
      modifies repr
      ensures Valid() && repr == old(repr) && larges == old(larges) && metas == old(metas) && mem == old(mem)
      ensures SmallFreed(old(chains), old(views), chains, views, bucket, slot)
    {
      hide SpanOf, Bucket.Ok, SpansOk, BucketsOk, ListsOk, LargesOk, EmptyIsSole, Listed, Retired, Held;
      InRepr(bucket);
      ReleaseSlot(bucket, slot);
      Retire(bucket);
    }

    lemma InRepr(bucket: Bucket)
      requires Core() && bucket in views
      ensures bucket in repr && bucket.used.bits in repr
    {
    }

    lemma CountsOf(bucket: Bucket)
      requires Core() && bucket in views
      ensures bucket.usedCount == 0 <==> NoneTaken(views[bucket])
      ensures CeilLog(bucket.objectSize) == views[bucket].cls < |chains| == smallBuckets.Length == NUM_SMALL_BUCKETS
      ensures bucket in chains[views[bucket].cls]
    {
      bucket.Counts(views[bucket]);
      assert ViewOk(views[bucket], bucketSize);
      CeilLogOfPow2(views[bucket].cls);
    }

    lemma IsSole(bucket: Bucket)
      requires Core() && bucket in views && views[bucket].cls < |chains| == smallBuckets.Length
      ensures |chains[views[bucket].cls]| > 1 <==> smallBuckets[views[bucket].cls] != bucket || bucket.next != null
    {
      var cs := chains[views[bucket].cls];
      assert bucket in cs;
      var j := IndexOf(cs, bucket);
      LinksOf(cs, smallBuckets[views[bucket].cls], smallBucketTails[views[bucket].cls]);
      assert cs[j].next == NextOf(cs, j);
    }

    /** Gives a large block and its list node back. */
    method FreeLarge(meta: LargeAlloc)
      requires Valid() && meta in metas
      modifies `largeAllocs, `larges, `metas, `blocks, (set m | m in larges)`prev, (set m | m in larges)`next
      ensures Valid() && meta in old(larges) && larges == Without(old(larges), IndexOf(old(larges), meta))
      ensures metas == old(metas) - {meta}
    {
      hide SpanOf, Listed, SpansOk, BucketsOk, ListsOk, LargesOk, EmptyIsSole, Without, IndexOf, Held;
      ghost var ms := larges;
      UnlinkLarge(meta);
      ReleasedCounts(views, ms, blocks, IndexOf(ms, meta));
      blocks := blocks - 2;
    }

    method UnlinkLarge(meta: LargeAlloc)
      requires Consistent() && meta in metas
      modifies `largeAllocs, `larges, `metas, (set m | m in larges)`prev, (set m | m in larges)`next
      ensures Consistent() && meta in old(larges) && larges == Without(old(larges), IndexOf(old(larges), meta))
      ensures metas == old(metas) - {meta}
    {
      hide SpanOf, SpansOk, LinkedLarge, ListsOk, BucketsOk, Without, IndexOf;
      ghost var ms, j := larges, IndexOf(larges, meta);
      NoneTwiceLarge(larges, largeAllocs);
      DropLargeKeepsBook(chains, views, larges, metas, bucketSize, meta);
      var prev, next := meta.prev, meta.next;
      LinkAroundLarge(meta, larges, largeAllocs, j);
      if prev == null {
        largeAllocs := next;
      }
      assert LargesOk(Without(ms, j), metas - {meta}, largeAllocs);
      SetLarges(Without(ms, j), metas - {meta});
    }

    /** Frees what the pointer points at; a pointer nobody owns is ignored. */
    method Free(mem: Slice, ghost owner: Owner)
      requires Valid() && (mem.ptr != 0 ==> Owns(views, metas, owner, mem))
      modifies repr
      ensures Valid() && repr == old(repr) && this.mem == old(this.mem)
      ensures if mem.ptr == 0 then State() == old(State()) else Freed(old(State()), State(), owner)
    {
      hide SpanOf, SpansOk, Linked, LinkedLarge, ListsOk, BucketsOk, Bucket.Ok, EmptyIsSole, Off, SmallFreed, IndexOf,
        Without, Listed, Held;
      if mem.ptr == 0 {
        return;
      }
      var bucket, slot := FindBucket(mem.ptr);
      FoundIsOwner(views, metas, bucketSize, owner, mem, bucket, slot);
      if bucket != null {
        FreeSmall(bucket, slot);
        return;
      }
      var meta := FindLarge(mem.ptr);
      LargeIsOwner(views, metas, bucketSize, owner, mem, meta);
      if meta != null {
        Footprint();
        FreeLarge(meta);
      }
    }

    ghost function State(): Book
      reads this
    {
      Book(chains, views, larges, metas)
    }

    /** Resizing a large block is the backing allocator's work: `data` is where the
        block then stands, its contents with it. The list only keeps standing for
        blocks that have bytes when the new size is not zero. */
    method ResizeLarge(meta: LargeAlloc, size: nat, data: Option<nat>) returns (r: Result)
      requires Valid() && meta in metas
      requires data.Some? && size > 0 ==> FreshFor(views, metas - {meta}, Span(data.value, data.value + size))
      modifies `mem, `larges, `metas, meta`slice
      ensures Valid() <==> data.None? || size > 0
      ensures larges == old(larges)
      ensures r == if data.Some? then Ok(Slice(data.value, size)) else Err(OutOfMemory)
      ensures data.None? ==> metas == old(metas) && mem == old(mem)
      ensures data.Some? ==> metas == old(metas)[meta := Slice(data.value, size)]
      ensures data.Some? ==> Carried(old(mem), mem, old(metas)[meta], Slice(data.value, size))
    {
      hide SpanOf, SpansOk, LinkedLarge, ListsOk, BucketsOk, FreshFor, Held, Carried, Moved, ByteAt;
      if data.None? {
        return Err(OutOfMemory);
      }
      ghost var s := Slice(data.value, size);
      ResizeKeepsSpans(views, metas, bucketSize, meta, s);
      MovedIsCarried(mem, meta.slice, s);
      mem := Moved(mem, data.value, meta.slice.ptr, Min(meta.slice.len, size));
      meta.slice := Slice(data.value, size);
      if size == 0 {
        metas := metas[meta := s];
        return Ok(meta.slice);
      }
      assert LargesOk(larges, metas[meta := s], largeAllocs);
      SetLarges(larges, metas[meta := s]);
      r := Ok(meta.slice);
    }

    /** What growing and shrinking do with pointers that own no slot. */
    method ResizeOther(mem: Slice, size: nat, alignment: nat, data: Option<nat>, ghost owner: Owner) returns (r: Result)
      requires Valid() && Owns(views, metas, owner, mem) && !owner.Slot?
      requires MayMove(views, metas, owner, LayoutSize(size, alignment), data)
      modifies repr
      ensures Valid() <==> !Emptied(owner, LayoutSize(size, alignment), data)
      ensures repr == old(repr)
      ensures var asked := LayoutSize(size, alignment);
        OtherResized(old(State()), State(), old(this.mem), this.mem, mem, asked, data, owner, r)
    {
      hide SpanOf, SpansOk, LargesOk, ListsOk, BucketsOk, FreshFor, EmptyIsSole, Listed, Off, Held, Carried, Moved,
        ByteAt;
      var meta := FindLarge(mem.ptr);
      LargeIsOwner(views, metas, bucketSize, owner, mem, meta);
      if meta == null {
        return Err(InvalidInput);
      }
      r := ResizeLarge(meta, LayoutSize(size, alignment), data);
    }

    method Grow(mem: Slice, size: nat, alignment: nat, data: Option<nat>, extra: bool, ghost owner: Owner)
      returns (r: Result, ghost owner': Owner, ghost mid: Book)
      requires Valid() && (mem.ptr != 0 ==> Owns(views, metas, owner, mem))
      requires Max(size, Align(alignment)) <= WORD_LIMIT / 2
      requires mem.ptr != 0 ==> MayMove(views, metas, owner, LayoutSize(size, alignment), data)
      requires data.Some? && (mem.ptr == 0 || !owner.Block?) ==>
        FreshFor(views, metas, Asked(size, Align(alignment), bucketSize, data.value))
      modifies repr
      ensures fresh(repr - old(repr))
      ensures Valid() <==> mem.ptr == 0 || !Emptied(owner, LayoutSize(size, alignment), data)
      ensures r.Err? ==> State() == old(State()) && this.mem == old(this.mem)
      ensures mem.ptr == 0 || (owner.Slot? && size > old(views)[owner.bucket].size) ==>
        (r.Err? <==>
          size == 0 || Refused(old(chains), old(views), size, Align(alignment), data.Some? && extra, bucketSize))
      ensures mem.ptr == 0 && r.Ok? ==>
        this.mem == old(this.mem) && ServedAs(old(State()), State(), size, Align(alignment), data, bucketSize, owner',
          r.slice)
      // Small blocks stay where they are as long as their slot is large enough.
      ensures mem.ptr != 0 && owner.Slot? && size <= old(views)[owner.bucket].size ==>
        r == Ok(Slice(mem.ptr, size)) && owner' == owner && State() == old(State()) && this.mem == old(this.mem)
      // Otherwise a new block takes over the contents and the old one is freed.
      ensures mem.ptr != 0 && owner.Slot? && size > old(views)[owner.bucket].size && r.Ok? ==>
        && ServedAs(old(State()), mid, size, Align(alignment), data, bucketSize, owner', r.slice)
        && Freed(mid, State(), owner)
      ensures mem.ptr != 0 && r.Ok? && (owner.Slot? ==> size > old(views)[owner.bucket].size) ==>
        Carried(old(this.mem), this.mem, mem, r.slice)
      ensures mem.ptr != 0 && !owner.Slot? ==>
        var asked := LayoutSize(size, alignment);
        owner' == owner && OtherResized(old(State()), State(), old(this.mem), this.mem, mem, asked, data, owner, r)
    {
      hide SpanOf, SpansOk, LargesOk, ListsOk, BucketsOk, Bucket.Ok, FreshFor, EmptyIsSole, Off, Pow2, Freed, Served,
        Listed, Asked, Held, Carried;
      mid, owner' := State(), owner;
      if mem.ptr == 0 {
        r, owner' := Alloc(size, alignment, data, extra);
        return;
      }
      var bucket, slot := FindBucket(mem.ptr);
      FoundIsOwner(views, metas, bucketSize, owner, mem, bucket, slot);
      if bucket == null {
        r := ResizeOther(mem, size, alignment, data, owner);
        return;
      }
      SizeOf(bucket);
      if size <= bucket.objectSize {
        return Ok(Slice(mem.ptr, size)), owner, mid;
      }
      r, owner', mid := MoveOut(mem, size, alignment, data, extra, owner);
    }

    lemma SizeOf(bucket: Bucket)
      requires Core() && bucket in views
      ensures bucket.objectSize == views[bucket].size
    {
      assert bucket.Ok(views[bucket]);
    }

    method MoveOut(mem: Slice, size: nat, alignment: nat, data: Option<nat>, extra: bool, ghost owner: Owner)
      returns (r: Result, ghost owner': Owner, ghost mid: Book)
      requires Valid() && mem.ptr != 0 && owner.Slot? && Owns(views, metas, owner, mem) &&
        size > views[owner.bucket].size
      requires Max(size, Align(alignment)) <= WORD_LIMIT / 2
      requires data.Some? ==> FreshFor(views, metas, Asked(size, Align(alignment), bucketSize, data.value))
      modifies repr
      ensures Valid() && fresh(repr - old(repr))
      ensures r.Err? ==> State() == old(State()) && this.mem == old(this.mem)
      ensures r.Err? <==> Refused(old(chains), old(views), size, Align(alignment), data.Some? && extra, bucketSize)
      ensures r.Ok? ==>
        && ServedAs(old(State()), mid, size, Align(alignment), data, bucketSize, owner', r.slice)
        && Freed(mid, State(), owner) && Carried(old(this.mem), this.mem, mem, r.slice)
    {
      hide SpanOf, SpansOk, LargesOk, ListsOk, BucketsOk, Bucket.Ok, FreshFor, EmptyIsSole, Off, Pow2, Freed, Served,
        Listed, Asked, Held, Carried, Moved, ByteAt;
      r, owner' := Alloc(size, alignment, data, extra);
      mid := State();
      if r.Ok? {
        ServedKeeps(old(State()), mid, size, Align(alignment), data, bucketSize, owner', r.slice, owner, mem);
        assert fresh(repr - old(repr));
        MovedIsCarried(this.mem, mem, r.slice);
        this.mem := Moved(this.mem, r.slice.ptr, mem.ptr, Min(mem.len, r.slice.len));
        Free(mem, owner);
      }
    }

    /** A small block keeps its slot whatever the size, so that the slice handed back is
        still the caller's exactly when the size fits the slot. */
    method Shrink(mem: Slice, size: nat, alignment: nat, data: Option<nat>, ghost owner: Owner) returns (r: Result)
      requires Valid() && (mem.ptr != 0 ==> Owns(views, metas, owner, mem))
      requires mem.ptr != 0 ==> MayMove(views, metas, owner, LayoutSize(size, alignment), data)
      modifies repr
      ensures repr == old(repr)
      ensures Valid() <==> mem.ptr == 0 || !Emptied(owner, LayoutSize(size, alignment), data)
      ensures mem.ptr == 0 ==> r == Err(InvalidInput) && State() == old(State()) && this.mem == old(this.mem)
      ensures mem.ptr != 0 && owner.Slot? ==>
        r == Ok(Slice(mem.ptr, size)) && State() == old(State()) && this.mem == old(this.mem)
      ensures mem.ptr != 0 && owner.Slot? ==>
        (Owns(views, metas, owner, r.slice) <==> size <= views[owner.bucket].size)
      ensures mem.ptr != 0 && !owner.Slot? ==>
        var asked := LayoutSize(size, alignment);
        OtherResized(old(State()), State(), old(this.mem), this.mem, mem, asked, data, owner, r)
      ensures mem.ptr != 0 && r.Ok? && owner.Block? ==>
        Carried(old(this.mem), this.mem, mem, r.slice)
    {
      hide SpanOf, SpansOk, LargesOk, ListsOk, BucketsOk, Bucket.Ok, FreshFor, EmptyIsSole, Off, Pow2, Listed, Held,
        Carried;
      if mem.ptr == 0 {
        return Err(InvalidInput);
      }
      var bucket, slot := FindBucket(mem.ptr);
      FoundIsOwner(views, metas, bucketSize, owner, mem, bucket, slot);
      if bucket == null {
        r := ResizeOther(mem, size, alignment, data, owner);
        return;
      }
      r := Ok(Slice(mem.ptr, size));
    }

    /** Gives everything back, live blocks or not. */
    method Destroy()
      requires Valid()
      modifies repr
      ensures Valid() && views == map[] && metas == map[] && larges == [] && blocks == 0
    {
      hide SpanOf, Listed, SpansOk, BucketsOk, ListsOk, LargesOk, EmptyIsSole, Without, IndexOf, Held;
      DestroyBuckets();
      FirstLarge();
      while largeAllocs != null
        invariant Valid() && views == map[] && repr == old(repr)
        invariant largeAllocs == null <==> larges == []
        invariant largeAllocs != null ==> largeAllocs in metas && largeAllocs in larges
        invariant forall m :: m in larges ==> m in repr
        decreases |larges|
      {
        ShorterWithout(larges, largeAllocs);
        FreeLarge(largeAllocs);
        FirstLarge();
      }
      NothingHeld(chains, views, larges, metas, blocks);
    }

    /** The first large block, if there is one. */
    lemma FirstLarge()
      requires Core()
      ensures largeAllocs == null <==> larges == []
      ensures largeAllocs != null ==> largeAllocs in metas && largeAllocs in larges
      ensures forall m :: m in larges ==> m in repr
    {
      assert larges != [] ==> larges[0] in larges;
    }

    method DestroyBuckets()
      requires Valid()
      modifies this, smallBuckets, smallBucketTails
      ensures Valid() && views == map[] && larges == old(larges) && metas == old(metas)
      ensures repr == old(repr) && largeAllocs == old(largeAllocs)
    {
      hide SpanOf, Listed, SpansOk, BucketsOk, LargesOk, EmptyIsSole, Linked, Held, FromClass;
      AllFromClass(views);
      ClassCount(chains, views, larges, metas);
      ghost var left := views;
      for i := 0 to NUM_SMALL_BUCKETS
        invariant |chains| == NUM_SMALL_BUCKETS && Held(left, larges, blocks) && left.Keys == FromClass(views, i)
        invariant forall j :: 0 <= j < NUM_SMALL_BUCKETS ==>
          if j < i then smallBuckets[j] == smallBucketTails[j] == null
          else Linked(chains[j], smallBuckets[j], smallBucketTails[j])
        invariant chains == old(chains) && views == old(views) && larges == old(larges) && metas == old(metas)
        invariant repr == old(repr) && largeAllocs == old(largeAllocs)
      {
        left := DestroyClass(i, left);
        smallBuckets[i] := null;
        smallBucketTails[i] := null;
      }
      NoBuckets(chains, views, larges, metas, bucketSize, left, blocks);
      chains, views := seq(NUM_SMALL_BUCKETS, _ => []), map[];
      assert forall j :: 0 <= j < NUM_SMALL_BUCKETS ==> chains[j] == [];
      NoneLinked();
    }

    method DestroyClass(i: nat, ghost left: map<Bucket, View>) returns (ghost rest: map<Bucket, View>)
      requires i < NUM_SMALL_BUCKETS == |chains| == smallBuckets.Length == smallBucketTails.Length
      requires Linked(chains[i], smallBuckets[i], smallBucketTails[i]) && Listed(chains, views, larges, metas)
      requires Held(left, larges, blocks) && left.Keys == FromClass(views, i)
      modifies `blocks
      ensures Held(rest, larges, blocks) && rest.Keys == FromClass(views, i + 1)
    {
      hide Held, Listed, FromClass, Visited, Linked, NextOf;
      ghost var cs, head, tail, j := chains[i], smallBuckets[i], smallBucketTails[i], 0;
      FirstLinked(cs, head, tail);
      NoneVisited(left, cs);
      rest := left;
      ghost var held := blocks;
      var b := smallBuckets[i];
      while b != null
        invariant j <= |cs| && b == NextOf(cs, j - 1) && Held(rest, larges, held)
        invariant rest.Keys == left.Keys - Visited(cs, j)
        decreases |cs| - j
      {
        NextLinked(cs, head, tail, b, j);
        var next := b.next;
        OneVisited(chains, views, larges, metas, i, left, rest, head, tail, j);
        DroppedCounts(rest, larges, held, cs[j]);
        rest := rest - {cs[j]};
        held := held - 2;
        j := j + 1;
        b := next;
      }
      NextLinked(cs, head, tail, b, j);
      ClassVisited(chains, views, larges, metas, i);
      blocks := held;
    }
  }

  /** `cu_Layout_create`: without an alignment a layout has no size either. */
  function LayoutSize(size: nat, alignment: nat): nat { if alignment == 0 then 0 else size }

  /** A resized large block overlaps no other one, if it has any bytes. */
  ghost predicate MayMove(views: map<Bucket, View>, metas: map<LargeAlloc, Slice>, owner: Owner, size: nat,
      data: Option<nat>) {
    owner.Block? && data.Some? && size > 0 ==>
      FreshFor(views, metas - {owner.meta}, Span(data.value, data.value + size))
  }

  /** The backing allocator resized a large block to nothing, and its entry stays. */
  predicate Emptied(owner: Owner, size: nat, data: Option<nat>) {
    owner.Block? && data.Some? && size == 0
  }

  /** One block took over the bytes of another as far as both reach; everything outside
      it is as it was. */
  ghost predicate Carried(m: nat -> nat, m': nat -> nat, src: Slice, dst: Slice) {
    && (forall a: nat :: dst.ptr <= a < dst.ptr + dst.len && a - dst.ptr < src.len ==>
          ByteAt(m', a) == ByteAt(m, src.ptr + (a - dst.ptr)))
    && forall a: nat :: !(dst.ptr <= a < dst.ptr + dst.len) ==> ByteAt(m', a) == ByteAt(m, a)
  }

  /** The same byte by byte. */
  lemma CarriedBytes(m: nat -> nat, m': nat -> nat, src: Slice, dst: Slice, i: nat)
    requires Carried(m, m', src, dst)
    ensures i < src.len && i < dst.len ==> m'(dst.ptr + i) == m(src.ptr + i)
    ensures !(dst.ptr <= i < dst.ptr + dst.len) ==> m'(i) == m(i)
  {
    assert ByteAt(m', dst.ptr + i) == m'(dst.ptr + i) && ByteAt(m', i) == m'(i);
  }

  lemma MovedIsCarried(m: nat -> nat, src: Slice, dst: Slice)
    ensures Carried(m, Moved(m, dst.ptr, src.ptr, Min(src.len, dst.len)), src, dst)
  {
    hide Moved, ByteAt;
    var m' := Moved(m, dst.ptr, src.ptr, Min(src.len, dst.len));
    forall a: nat ensures ByteAt(m', a) ==
      ByteAt(m, if dst.ptr <= a < dst.ptr + Min(src.len, dst.len) then src.ptr + (a - dst.ptr) else a)
    {
      MovedAt(m, dst.ptr, src.ptr, Min(src.len, dst.len), a);
    }
  }

  lemma MovedAt(m: nat -> nat, d: nat, s: nat, n: nat, a: nat)
    ensures ByteAt(Moved(m, d, s, n), a) == ByteAt(m, if d <= a < d + n then s + (a - d) else a)
  {
  }

  function ByteAt(m: nat -> nat, a: nat): nat { m(a) }

  /** Memory after `n` bytes were copied from `s` to `d`. */
  function Moved(m: nat -> nat, d: nat, s: nat, n: nat): nat -> nat {
    (a: nat) => if d <= a < d + n then m(s + (a - d)) else m(a)
  }

  lemma ResizeKeepsSpans(views: map<Bucket, View>, metas: map<LargeAlloc, Slice>, bucketSize: nat, m: LargeAlloc,
      s: Slice)
    requires SpansOk(views, metas, bucketSize) && (s.len > 0 ==> FreshFor(views, metas - {m}, SliceSpan(s)))
    ensures SpansOk(views, metas[m := s], bucketSize) <==> s.len > 0
  {
    hide SpanOf, Apart, Pow2, ViewOk;
    assert metas[m := s][m].len > 0 <==> s.len > 0;
    if s.len == 0 {
      return;
    }
    forall n | n in metas && n != m ensures Apart(SliceSpan(s), SliceSpan(metas[n])) &&
      Apart(SliceSpan(metas[n]), SliceSpan(s)) {
      assert n in metas - {m};
      ApartBothWays(SliceSpan(s), SliceSpan(metas[n]));
    }
    forall b | b in views ensures Apart(SpanOf(views[b]), SliceSpan(s)) {
      ApartBothWays(SliceSpan(s), SpanOf(views[b]));
    }
  }

  lemma ApartBothWays(s: Span, t: Span)
    ensures Apart(s, t) == Apart(t, s)
  {
  }

  /** Resizing a large block replaces its entry and carries its contents along; a
      pointer nobody owns is refused. */
  ghost predicate OtherResized(s: Book, s': Book, m: nat -> nat, m': nat -> nat, mem: Slice, size: nat,
      data: Option<nat>, owner: Owner, r: Result)
    requires !owner.Slot?
  {
    if owner.Nobody? then r == Err(InvalidInput) && s' == s && m' == m
    else if data.None? then r == Err(OutOfMemory) && s' == s && m' == m
    else
      && r == Ok(Slice(data.value, size)) && s' == s.(metas := s.metas[owner.meta := Slice(data.value, size)])
      && Carried(m, m', mem, Slice(data.value, size))
  }

  ghost predicate ServedAs(s: Book, s': Book, size: nat, align: nat, data: Option<nat>, bucketSize: nat, owner: Owner,
      r: Slice) {
    Served(s.chains, s.views, s.larges, s.metas, s'.chains, s'.views, s'.larges, s'.metas, size, align, data,
      bucketSize, owner, r)
  }

  /** Serving a request leaves every owner what it has, and the new one is another. */
  lemma ServedKeeps(s: Book, s': Book, size: nat, align: nat, data: Option<nat>, bucketSize: nat, owner: Owner,
      r: Slice, o: Owner, m: Slice)
    requires ServedAs(s, s', size, align, data, bucketSize, owner, r) && !o.Nobody? && Owns(s.views, s.metas, o, m)
    requires Listed(s.chains, s.views, s.larges, s.metas) && SpansOk(s.views, s.metas, bucketSize)
    ensures Owns(s'.views, s'.metas, o, m) && o != owner && Owns(s'.views, s'.metas, owner, r) && r.len == size
  {
    hide Off, Pow2, CeilPow2, Log2, CeilLog, Listed, SpansOk, ViewOk;
    ObjSizeIs(Max(size, align));
    if owner.Slot? {
      if owner.bucket in s.views { ClassOf(s, bucketSize, CeilLog(Max(size, align)), owner.bucket); }
      if o.Slot? && o.bucket == owner.bucket { assert WithSlot(s.views[o.bucket], owner.slot, true).bits[o.slot]; }
    }
  }

  /** The buckets on the list of a class have slots of its size. */
  lemma ClassOf(s: Book, bucketSize: nat, k: nat, b: Bucket)
    requires Listed(s.chains, s.views, s.larges, s.metas) && SpansOk(s.views, s.metas, bucketSize)
    requires k < |s.chains| && b in s.chains[k]
    ensures b in s.views && s.views[b].cls == k && s.views[b].size == Pow2(k)
  {
    hide Pow2;
    assert ViewOk(s.views[b], bucketSize);
  }

  /** Freeing leaves the owner nothing. */
  lemma FreedIsGone(s: Book, s': Book, owner: Owner, m: Slice)
    requires Freed(s, s', owner) && !owner.Nobody?
    ensures !Owns(s'.views, s'.metas, owner, m)
  {
    hide Off, Without, IndexOf, Pow2;
  }

  /** Freeing takes nothing from any other owner. */
  lemma FreedKeeps(s: Book, s': Book, owner: Owner, o: Owner, m: Slice)
    requires Freed(s, s', owner) && !o.Nobody? && o != owner && Owns(s.views, s.metas, o, m)
    ensures Owns(s'.views, s'.metas, o, m)
  {
    hide Off, Without, IndexOf;
    if owner.Slot? && o.Slot? && o.bucket == owner.bucket {
      assert WithSlot(s.views[o.bucket], owner.slot, false).bits[o.slot];
    }
  }

  /** The lists, buckets and large blocks together. */
  datatype Book = Book(chains: seq<seq<Bucket>>, views: map<Bucket, View>, larges: seq<LargeAlloc>,
    metas: map<LargeAlloc, Slice>)

  /** What freeing an owner's bytes comes to. */
  ghost predicate Freed(s: Book, s': Book, owner: Owner) {
    match owner
    case Slot(b, i) =>
      && b in s.views && i < |s.views[b].bits| && s'.larges == s.larges && s'.metas == s.metas
      && SmallFreed(s.chains, s.views, s'.chains, s'.views, b, i)
    case Block(m) => m in s.larges &&
      s' == s.(larges := Without(s.larges, IndexOf(s.larges, m)), metas := s.metas - {m})
    case Nobody => s' == s
  }

  lemma LargeIsOwner(views: map<Bucket, View>, metas: map<LargeAlloc, Slice>, bucketSize: nat, owner: Owner,
      mem: Slice, meta: LargeAlloc?)
    requires SpansOk(views, metas, bucketSize) && Owns(views, metas, owner, mem) && !owner.Slot?
    requires meta == null ==> forall m :: m in metas ==> metas[m].ptr != mem.ptr
    requires meta != null ==> meta in metas && metas[meta].ptr == mem.ptr
    ensures if owner.Block? then meta == owner.meta else meta == null
  {
    hide SpanOf, ViewOk;
    assert owner.Block? && meta != owner.meta && meta != null ==>
      Apart(SliceSpan(metas[meta]), SliceSpan(metas[owner.meta]));
  }

  lemma NoneTwiceLarge(ms: seq<LargeAlloc>, head: LargeAlloc?)
    requires LinkedLarge(ms, head)
    ensures forall i, j :: 0 <= i < j < |ms| ==> ms[i] != ms[j]
  {
  }

  lemma DropLargeKeepsBook(chains: seq<seq<Bucket>>, views: map<Bucket, View>, larges: seq<LargeAlloc>,
      metas: map<LargeAlloc, Slice>, bucketSize: nat, m: LargeAlloc)
    requires Listed(chains, views, larges, metas) && SpansOk(views, metas, bucketSize) && m in metas
    requires forall i, j :: 0 <= i < j < |larges| ==> larges[i] != larges[j]
    ensures m in larges
    ensures Listed(chains, views, Without(larges, IndexOf(larges, m)), metas - {m}) &&
      SpansOk(views, metas - {m}, bucketSize)
  {
    hide SpansOk, IndexOf;
    assert m in larges;
    WithoutElements(larges, IndexOf(larges, m));
    hide Without;
    DropLargeKeepsSpans(views, metas, bucketSize, m);
  }

  lemma DropLargeKeepsSpans(views: map<Bucket, View>, metas: map<LargeAlloc, Slice>, bucketSize: nat, m: LargeAlloc)
    requires SpansOk(views, metas, bucketSize)
    ensures SpansOk(views, metas - {m}, bucketSize)
  {
    hide SpanOf, SliceSpan, Apart, ViewOk;
  }

  method LinkAroundLarge(meta: LargeAlloc, ghost ms: seq<LargeAlloc>, ghost head: LargeAlloc?, ghost j: nat)
    requires LinkedLarge(ms, head) && j < |ms| && meta == ms[j]
    modifies (set m | m in ms)`prev, (set m | m in ms)`next
    ensures LinkedLarge(Without(ms, j), if old(meta.prev) == null then old(meta.next) else head)
  {
    LargeLinksOf(ms, head);
    hide LinkedLarge;
    var next, prev := meta.next, meta.prev;
    if prev != null {
      prev.next := next;
    }
    if next != null {
      next.prev := prev;
    }
    WithoutLargeLinks(ms, j);
  }

  lemma WithoutLargeLinks(ms: seq<LargeAlloc>, j: nat)
    requires j < |ms|
    requires forall i :: 0 <= i < |ms| && i != j ==>
      ms[i].prev == if i == j + 1 then PrevLarge(ms, j) else PrevLarge(ms, i)
    requires forall i :: 0 <= i < |ms| && i != j ==>
      ms[i].next == if i == j - 1 then NextLarge(ms, j) else NextLarge(ms, i)
    requires forall i, k :: 0 <= i < k < |ms| ==> ms[i] != ms[k]
    ensures var ns := Without(ms, j); LinkedLarge(ns, NextLarge(ns, -1))
  {
    var ns := Without(ms, j);
    forall i | 0 <= i < |ns| ensures ns[i].prev == PrevLarge(ns, i) && ns[i].next == NextLarge(ns, i) {
      var k := if i < j then i else i + 1;
      assert ns[i] == ms[k];
    }
  }

  ghost function IndexOf<T>(s: seq<T>, x: T): (i: nat)
    requires x in s
    ensures i < |s| && s[i] == x
  {
    if s[0] == x then 0 else 1 + IndexOf(s[1..], x)
  }

  /** An empty bucket is gone unless it is the only one of its class. */
  ghost predicate Retired(cs: seq<seq<Bucket>>, vs: map<Bucket, View>, cs': seq<seq<Bucket>>, vs': map<Bucket, View>,
      b: Bucket)
  {
    && b in vs && vs[b].cls < |cs|
    && var idx := vs[b].cls;
    if NoneTaken(vs[b]) && |cs[idx]| > 1 then
      b in cs[idx] && cs' == cs[idx := Without(cs[idx], IndexOf(cs[idx], b))] && vs' == vs - {b}
    else cs' == cs && vs' == vs
  }

  lemma NothingToRetire(cs: seq<seq<Bucket>>, vs: map<Bucket, View>, b: Bucket)
    requires EmptyIsSole(cs, vs, b) && b in vs && vs[b].cls < |cs| && b in cs[vs[b].cls]
    requires NoneTaken(vs[b]) ==> |cs[vs[b].cls]| <= 1
    ensures EmptyIsSole(cs, vs, null) && Retired(cs, vs, cs, vs, b)
  {
  }

  /** The slot is free again, and its bucket is retired if that emptied it. */
  ghost predicate SmallFreed(cs: seq<seq<Bucket>>, vs: map<Bucket, View>, cs': seq<seq<Bucket>>, vs': map<Bucket, View>,
      b: Bucket, slot: nat)
    requires b in vs && slot < |vs[b].bits|
  {
    Retired(cs, vs[b := WithSlot(vs[b], slot, false)], cs', vs', b)
  }

  lemma DropKeepsBook(chains: seq<seq<Bucket>>, views: map<Bucket, View>, larges: seq<LargeAlloc>,
      metas: map<LargeAlloc, Slice>, bucketSize: nat, b: Bucket)
    requires Listed(chains, views, larges, metas) && SpansOk(views, metas, bucketSize) && EmptyIsSole(chains, views, b)
    requires b in views && |chains[views[b].cls]| > 1
    requires forall i, j :: 0 <= i < j < |chains[views[b].cls]| ==> chains[views[b].cls][i] != chains[views[b].cls][j]
    ensures var idx := views[b].cls;
      var cs, vs := chains[idx := Without(chains[idx], IndexOf(chains[idx], b))], views - {b};
      Listed(cs, vs, larges, metas) && SpansOk(vs, metas, bucketSize) && EmptyIsSole(cs, vs, null)
  {
    hide SpansOk, NoneTaken, Without;
    var idx := views[b].cls;
    assert b in chains[idx];
    DropKeepsListed(chains, views, larges, metas, b);
    DropKeepsSpans(views, metas, bucketSize, b);
    WithoutElements(chains[idx], IndexOf(chains[idx], b));
  }

  lemma DropKeepsListed(chains: seq<seq<Bucket>>, views: map<Bucket, View>, larges: seq<LargeAlloc>,
      metas: map<LargeAlloc, Slice>, b: Bucket)
    requires Listed(chains, views, larges, metas) && b in views
    requires forall i, j :: 0 <= i < j < |chains[views[b].cls]| ==> chains[views[b].cls][i] != chains[views[b].cls][j]
    ensures var idx := views[b].cls;
      && b in chains[idx]
      && Listed(chains[idx := Without(chains[idx], IndexOf(chains[idx], b))], views - {b}, larges, metas)
  {
    hide IndexOf, Without;
    var idx := views[b].cls;
    assert b in chains[idx];
    WithoutElements(chains[idx], IndexOf(chains[idx], b));
  }

  lemma BucketsOkFewer(views: map<Bucket, View>, b: Bucket)
    requires BucketsOk(views)
    ensures BucketsOk(views - {b})
  {
  }

  lemma NoneTwice(cs: seq<Bucket>, head: Bucket?, tail: Bucket?)
    requires Linked(cs, head, tail)
    ensures forall i, j :: 0 <= i < j < |cs| ==> cs[i] != cs[j]
  {
  }

  lemma DropKeepsSpans(views: map<Bucket, View>, metas: map<LargeAlloc, Slice>, bucketSize: nat, b: Bucket)
    requires SpansOk(views, metas, bucketSize)
    ensures SpansOk(views - {b}, metas, bucketSize)
  {
    hide SpanOf, SliceSpan, Apart, ViewOk;
  }

  lemma WithoutElements<T>(s: seq<T>, i: nat)
    requires i < |s| && forall k, l :: 0 <= k < l < |s| ==> s[k] != s[l]
    ensures |Without(s, i)| == |s| - 1
    ensures forall x :: x in Without(s, i) ==> x in s && x != s[i]
    ensures forall x :: x in s && x != s[i] ==> x in Without(s, i)
  {
    var t := Without(s, i);
    forall x | x in s && x != s[i] ensures x in t {
      var k :| 0 <= k < |s| && s[k] == x;
      assert t[if k < i then k else k - 1] == x;
    }
    forall x | x in t ensures x in s && x != s[i] {
      var k :| 0 <= k < |t| && t[k] == x;
      assert s[if k < i then k else k + 1] == x;
    }
  }

  /** Requests that fit a slot of one of the classes go to buckets. */
  predicate IsSmall(size: nat, align: nat, bucketSize: nat) {
    CeilLog(Max(size, align)) < NUM_SMALL_BUCKETS && CeilPow2(Max(size, align)) <= bucketSize
  }

  /** These are the requests some class has a slot for that is not larger than a bucket. */
  lemma SmallHasClass(size: nat, align: nat, bucketSize: nat)
    ensures IsSmall(size, align, bucketSize) <==>
      exists k: nat :: k < 16 && size <= Pow2(k) && align <= Pow2(k) && Pow2(k) <= bucketSize
  {
    hide Pow2, CeilPow2, Log2;
    var need := Max(size, align);
    ObjSizeIs(need);
    CeilLogBounds(need);
    forall k: nat | k < 16 && need <= Pow2(k) && Pow2(k) <= bucketSize
      ensures CeilLog(need) <= k && CeilPow2(need) <= bucketSize
    {
      if k < CeilLog(need) { Pow2Monotone(k, CeilLog(need) - 1); }
      Pow2Monotone(CeilLog(need), k);
    }
  }

  /** What a new bucket is good for. The first of its class serves a second request
      without the backing allocator exactly when two slots fit in a bucket. Any other
      stands behind a full head, and only the head is looked at, so that the next request
      needs yet another bucket. */
  lemma SecondRequest(s: Book, s': Book, size: nat, align: nat, data: Option<nat>, bucketSize: nat, owner: Owner,
      r: Slice, size': nat, align': nat)
    requires ServedAs(s, s', size, align, data, bucketSize, owner, r) && IsSmall(size, align, bucketSize)
    requires IsSmall(size', align', bucketSize) && CeilLog(Max(size', align')) == CeilLog(Max(size, align))
    requires Listed(s.chains, s.views, s.larges, s.metas) && !HasRoom(s.chains, s.views, CeilLog(Max(size, align)))
    ensures var k := CeilLog(Max(size, align));
      Refused(s'.chains, s'.views, size', align', false, bucketSize) <==>
        s.chains[k] != [] || bucketSize < 2 * Pow2(k)
  {
    hide Pow2, CeilPow2, Log2, CeilLog;
    var k := CeilLog(Max(size, align));
    assert SmallServed(s.chains, s.views, s'.chains, s'.views, k, data, bucketSize, size, owner, r);
    if s.chains[k] != [] {
      var head := s.chains[k][0];
      assert head in s.chains[k] && head in s.views && owner.bucket != head;
      assert s'.chains[k][0] == head && s'.views[head] == s.views[head];
    } else {
      var v := NewView(k, data.value, bucketSize);
      assert s'.chains[k] == [owner.bucket] && s'.views[owner.bucket] == WithSlot(v, 0, true);
      SlotCountIsGreatest(bucketSize, Pow2(k), 1);
      assert Off(2, Pow2(k)) == 2 * Pow2(k) by { OffIsProduct(2, Pow2(k)); }
      if |v.bits| > 1 { assert !WithSlot(v, 0, true).bits[1]; }
    }
  }

  /** Freeing a slot of the head bucket makes room in its class for the next request,
      unless it was the bucket's last and other buckets stand behind it. */
  lemma FreedHasRoom(s: Book, s': Book, b: Bucket, slot: nat, size: nat, align: nat, bucketSize: nat)
    requires Freed(s, s', Slot(b, slot)) && Listed(s.chains, s.views, s.larges, s.metas)
    requires s.chains[s.views[b].cls] != [] && s.chains[s.views[b].cls][0] == b
    requires |s.chains[s.views[b].cls]| == 1 || !NoneTaken(WithSlot(s.views[b], slot, false))
    requires IsSmall(size, align, bucketSize) && CeilLog(Max(size, align)) == s.views[b].cls
    ensures !Refused(s'.chains, s'.views, size, align, false, bucketSize)
  {
    hide CeilPow2, CeilLog, Without, IndexOf;
    assert !WithSlot(s.views[b], slot, false).bits[slot];
  }

  /** A bucket's slots lie behind its header. Where the backing allocator aligned the
      bucket to the size of its slots, as it was asked to, an alignment that fits a slot is
      honoured exactly when it divides the length of the header. */
  lemma AlignedAsHeader(v: View, slot: nat, k: nat, base: nat, header: nat, align: nat)
    requires v.size == Pow2(k) && base % Pow2(k) == 0 && v.data == base + header
    requires IsPow2(align) && align <= Pow2(k)
    ensures SlotAddr(v, slot) % align == 0 <==> header % align == 0
  {
    hide Pow2, IsPow2, Off;
    AlignDivides(align, k, base);
    OffIsProduct(slot, Pow2(k));
    ModUnique(Off(slot, Pow2(k)), Pow2(k), slot, 0);
    AlignDivides(align, k, Off(slot, Pow2(k)));
    SameRemainder(header, base, align);
    SameRemainder(header + base, Off(slot, Pow2(k)), align);
  }

  lemma AlignDivides(align: nat, k: nat, x: nat)
    requires IsPow2(align) && align <= Pow2(k) && x % Pow2(k) == 0
    ensures align > 0 && x % align == 0
  {
    hide Pow2;
    var j := Log2(align);
    if j > k { Pow2Monotone(k, j); }
    Pow2Divides(j, k, x);
  }

  lemma Pow2Divides(j: nat, k: nat, x: nat)
    requires j <= k && x % Pow2(k) == 0
    ensures x % Pow2(j) == 0
  {
    hide Pow2;
    Pow2Sum(j, k - j);
    var q := x / Pow2(k);
    assert x == (q * Pow2(k - j)) * Pow2(j);
    ModUnique(x, Pow2(j), q * Pow2(k - j), 0);
  }

  /** A request fails when it needs the backing allocator and is not `granted` all
      that is asked of it: large requests do, small ones when the head bucket of
      their class is missing or full. */
  ghost predicate Refused(chains: seq<seq<Bucket>>, views: map<Bucket, View>, size: nat, align: nat, granted: bool,
      bucketSize: nat) {
    !granted && (IsSmall(size, align, bucketSize) ==>
      var idx := CeilLog(Max(size, align)); idx < |chains| && !HasRoom(chains, views, idx))
  }

  /** The bytes the backing allocator is asked for. */
  function Asked(size: nat, align: nat, bucketSize: nat, data: nat): Span {
    if IsSmall(size, align, bucketSize) then SpanOf(NewView(CeilLog(Max(size, align)), data, bucketSize))
    else Span(data, data + size)
  }

  lemma ObjSizeIs(need: nat)
    ensures CeilPow2(need) == Pow2(CeilLog(need)) && CeilLog(CeilPow2(need)) == CeilLog(need) && need <= CeilPow2(need)
  {
    CeilLogOfPow2(CeilLog(need));
  }

  /** A request was granted, to an owner there was not before; blocks of the other
      kind are as they were. */
  ghost predicate Served(cs: seq<seq<Bucket>>, vs: map<Bucket, View>, ms: seq<LargeAlloc>,
      metas: map<LargeAlloc, Slice>, cs': seq<seq<Bucket>>, vs': map<Bucket, View>,
      ms': seq<LargeAlloc>, metas': map<LargeAlloc, Slice>,
      size: nat, align: nat, data: Option<nat>, bucketSize: nat, owner: Owner, r: Slice)
  {
    if IsSmall(size, align, bucketSize) then
      && CeilLog(Max(size, align)) < |cs| && owner.Slot? && ms' == ms && metas' == metas
      && SmallServed(cs, vs, cs', vs', CeilLog(Max(size, align)), data, bucketSize, size, owner, r)
    else
      owner.Block? && cs' == cs && vs' == vs && LargeServed(ms, metas, ms', metas', data, size, owner, r)
  }

  /** A large request got a block of its own, listed first. */
  ghost predicate LargeServed(ms: seq<LargeAlloc>, metas: map<LargeAlloc, Slice>, ms': seq<LargeAlloc>,
      metas': map<LargeAlloc, Slice>, data: Option<nat>, size: nat, owner: Owner, r: Slice)
    requires owner.Block?
  {
    && data.Some? && r == Slice(data.value, size) && owner.meta !in metas
    && ms' == [owner.meta] + ms && metas' == metas[owner.meta := r]
  }

  lemma LargeKeepsListed(chains: seq<seq<Bucket>>, views: map<Bucket, View>, larges: seq<LargeAlloc>,
      metas: map<LargeAlloc, Slice>, m: LargeAlloc, s: Slice)
    requires Listed(chains, views, larges, metas)
    ensures Listed(chains, views, [m] + larges, metas[m := s])
  {
  }

  lemma LargeKeepsSpans(views: map<Bucket, View>, metas: map<LargeAlloc, Slice>, bucketSize: nat, m: LargeAlloc,
      s: Slice)
    requires SpansOk(views, metas, bucketSize) && s.len > 0 && FreshFor(views, metas, SliceSpan(s))
    ensures SpansOk(views, metas[m := s], bucketSize)
  {
    hide SpanOf, Pow2, ViewOk;
  }

  method LinkBefore(meta: LargeAlloc, first: LargeAlloc?, ghost ms: seq<LargeAlloc>)
    requires LinkedLarge(ms, first) && meta !in ms && meta.prev == null
    modifies meta`next, (set m | m in ms)`prev
    ensures LinkedLarge([meta] + ms, meta)
  {
    LargeLinksOf(ms, first);
    hide LinkedLarge;
    meta.next := first;
    if meta.next != null {
      meta.next.prev := meta;
    }
    PushedLinks(ms, meta);
  }

  lemma LargeLinksOf(ms: seq<LargeAlloc>, head: LargeAlloc?)
    requires LinkedLarge(ms, head)
    ensures head == NextLarge(ms, -1)
    ensures forall i :: 0 <= i < |ms| ==> ms[i].prev == PrevLarge(ms, i) && ms[i].next == NextLarge(ms, i)
    ensures forall i, j :: 0 <= i < j < |ms| ==> ms[i] != ms[j]
  {
  }

  lemma PushedLinks(ms: seq<LargeAlloc>, m: LargeAlloc)
    requires forall i :: 0 <= i < |ms| ==> ms[i].next == NextLarge(ms, i)
    requires forall i :: 0 <= i < |ms| ==> ms[i].prev == if i == 0 then m else PrevLarge(ms, i)
    requires forall i, j :: 0 <= i < j < |ms| ==> ms[i] != ms[j]
    requires m !in ms && m.prev == null && m.next == NextLarge(ms, -1)
    ensures LinkedLarge([m] + ms, m)
  {
    var ns := [m] + ms;
    forall i | 0 <= i < |ns| ensures ns[i].prev == PrevLarge(ns, i) && ns[i].next == NextLarge(ns, i) {
      assert i > 0 ==> ns[i] == ms[i - 1];
    }
  }

  /** The bucket that serves a request: the head of its class, or a new one behind
      the others when the head is missing or full. */
  ghost predicate Picked(cs: seq<seq<Bucket>>, vs: map<Bucket, View>, cs': seq<seq<Bucket>>, vs': map<Bucket, View>,
      idx: nat, data: Option<nat>, bucketSize: nat, b: Bucket)
    requires idx < |cs|
  {
    if HasRoom(cs, vs, idx) then cs' == cs && vs' == vs && b == cs[idx][0]
    else data.Some? && Joined(cs, vs, cs', vs', idx, data.value, bucketSize, b)
  }

  /** A new bucket stands behind the others of its class. */
  ghost predicate Joined(cs: seq<seq<Bucket>>, vs: map<Bucket, View>, cs': seq<seq<Bucket>>, vs': map<Bucket, View>,
      idx: nat, data: nat, bucketSize: nat, b: Bucket)
  {
    && idx < |cs| && b !in vs
    && cs' == cs[idx := cs[idx] + [b]] && vs' == vs[b := NewView(idx, data, bucketSize)]
  }

  /** A small request got the lowest free slot of the bucket picked for it. */
  ghost predicate SmallServed(cs: seq<seq<Bucket>>, vs: map<Bucket, View>, cs': seq<seq<Bucket>>,
      vs': map<Bucket, View>, idx: nat, data: Option<nat>, bucketSize: nat, size: nat, owner: Owner, r: Slice)
    requires idx < |cs| && owner.Slot?
  {
    var b, slot := owner.bucket, owner.slot;
    && b in vs'
    && var v := if b in vs then vs[b] else NewView(idx, data.GetOr(0), bucketSize);
    && Picked(cs, vs, cs', vs[b := v], idx, data, bucketSize, b)
    && slot == FirstClear(v.bits, 0) < |v.bits|
    && vs' == vs[b := WithSlot(v, slot, true)]
    && r == Slice(SlotAddr(v, slot), size)
  }

  lemma PickedThenTaken(cs: seq<seq<Bucket>>, vs: map<Bucket, View>, cs': seq<seq<Bucket>>, mid: map<Bucket, View>,
      idx: nat, data: Option<nat>, bucketSize: nat, size: nat, b: Bucket, slot: nat)
    requires idx < |cs| && b in mid && Picked(cs, vs, cs', mid, idx, data, bucketSize, b)
    requires slot == FirstClear(mid[b].bits, 0) < |mid[b].bits|
    ensures SmallServed(cs, vs, cs', mid[b := WithSlot(mid[b], slot, true)], idx, data, bucketSize, size, Slot(b, slot),
              Slice(SlotAddr(mid[b], slot), size))
  {
    hide NewView, Off;
    assert b in vs ==> vs[b := vs[b]] == vs;
  }

  /** A new bucket's abstract state. */
  function NewView(cls: nat, data: nat, bucketSize: nat): (v: View)
  {
    View(cls, data, Pow2(cls), seq(SlotCount(bucketSize, Pow2(cls)), _ => false))
  }

  lemma NewViewOk(views: map<Bucket, View>, metas: map<LargeAlloc, Slice>, cls: nat, data: nat, bucketSize: nat)
    requires cls < NUM_SMALL_BUCKETS && FreshFor(views, metas, SpanOf(NewView(cls, data, bucketSize)))
    ensures ViewOk(NewView(cls, data, bucketSize), bucketSize)
  {
  }

  function WithSlot(v: View, slot: nat, taken: bool): View
    requires slot < |v.bits|
  {
    v.(bits := v.bits[slot := taken])
  }

  lemma SlotKeepsBook(chains: seq<seq<Bucket>>, views: map<Bucket, View>, larges: seq<LargeAlloc>,
      metas: map<LargeAlloc, Slice>, bucketSize: nat, b: Bucket, slot: nat, taken: bool)
    requires Listed(chains, views, larges, metas) && SpansOk(views, metas, bucketSize) && EmptyIsSole(chains, views, b)
    requires b in views && slot < |views[b].bits|
    ensures var vs := views[b := WithSlot(views[b], slot, taken)];
      Listed(chains, vs, larges, metas) && SpansOk(vs, metas, bucketSize) &&
        EmptyIsSole(chains, vs, if taken then null else b)
  {
    hide SliceSpan, Pow2;
    var vs := views[b := WithSlot(views[b], slot, taken)];
    assert SpanOf(vs[b]) == SpanOf(views[b]);
    assert taken ==> vs[b].bits[slot];
    hide SpanOf;
  }

  ghost predicate HasRoom(chains: seq<seq<Bucket>>, views: map<Bucket, View>, idx: nat)
    requires idx < |chains|
  {
    chains[idx] != [] && chains[idx][0] in views && !AllTaken(views[chains[idx][0]])
  }

  ghost predicate AllTaken(v: View) { forall i :: 0 <= i < |v.bits| ==> v.bits[i] }

  /** What the backing allocator promises of a new block: no live block overlaps it. */
  ghost predicate FreshFor(views: map<Bucket, View>, metas: map<LargeAlloc, Slice>, s: Span) {
    && s.lo > 0
    && (forall b :: b in views ==> Apart(s, SpanOf(views[b])))
    && (forall m :: m in metas ==> Apart(s, SliceSpan(metas[m])))
  }

  lemma AppendKeepsListed(chains: seq<seq<Bucket>>, views: map<Bucket, View>, larges: seq<LargeAlloc>,
      metas: map<LargeAlloc, Slice>, b: Bucket, idx: nat, v: View)
    requires Listed(chains, views, larges, metas) && idx < |chains| && b !in views && v.cls == idx
    ensures Listed(chains[idx := chains[idx] + [b]], views[b := v], larges, metas)
  {
  }

  lemma AppendKeepsBuckets(views: map<Bucket, View>, b: Bucket, v: View)
    requires BucketsOk(views) && b !in views && b.Ok(v) && forall c :: c in views ==> c.used.bits != b.used.bits
    ensures BucketsOk(views[b := v])
  {
    hide Bucket.Ok;
  }

  lemma AppendKeepsSpans(views: map<Bucket, View>, metas: map<LargeAlloc, Slice>, bucketSize: nat, b: Bucket, v: View)
    requires SpansOk(views, metas, bucketSize) && ViewOk(v, bucketSize) && FreshFor(views, metas, SpanOf(v))
    ensures SpansOk(views[b := v], metas, bucketSize)
  {
    hide SpanOf, SliceSpan, Pow2, ViewOk;
  }

  lemma AppendKeepsEmpty(chains: seq<seq<Bucket>>, views: map<Bucket, View>, larges: seq<LargeAlloc>,
      metas: map<LargeAlloc, Slice>, bucketSize: nat, b: Bucket, idx: nat, v: View)
    requires Listed(chains, views, larges, metas) && SpansOk(views, metas, bucketSize) &&
      EmptyIsSole(chains, views, null)
    requires idx < |chains| && !HasRoom(chains, views, idx) && b !in views && bucketSize > 0
    ensures EmptyIsSole(chains[idx := chains[idx] + [b]], views[b := v], b)
  {
    hide Apart, SpanOf, SliceSpan, Pow2;
    var cs, vs := chains[idx := chains[idx] + [b]], views[b := v];
    forall c | c in vs && c != b && NoneTaken(vs[c]) && vs[c].cls < |cs| ensures |cs[vs[c].cls]| == 1 {
      EmptyHasRoom(chains, views, larges, metas, bucketSize, c);
    }
  }

  /** An empty bucket is the head of its class and can serve. */
  lemma EmptyHasRoom(chains: seq<seq<Bucket>>, views: map<Bucket, View>, larges: seq<LargeAlloc>,
      metas: map<LargeAlloc, Slice>, bucketSize: nat, c: Bucket)
    requires Listed(chains, views, larges, metas) && EmptyIsSole(chains, views, null)
    requires c in views && ViewOk(views[c], bucketSize) && NoneTaken(views[c])
    ensures HasRoom(chains, views, views[c].cls) && |chains[views[c].cls]| == 1
  {
    hide Pow2;
    assert |chains[views[c].cls]| == 1 && chains[views[c].cls][0] == c;
    assert !views[c].bits[0];
  }

  method LinkAround(bucket: Bucket, ghost cs: seq<Bucket>, ghost head: Bucket?, ghost tail: Bucket?, ghost j: nat)
    requires Linked(cs, head, tail) && j < |cs| && bucket == cs[j]
    modifies (set c | c in cs)`prev, (set c | c in cs)`next
    ensures Linked(Without(cs, j), if old(bucket.prev) == null then old(bucket.next) else head,
              if old(bucket.next) == null then old(bucket.prev) else tail)
  {
    hide Linked, Without;
    LinksOf(cs, head, tail);
    var next, prev := bucket.next, bucket.prev;
    if prev != null {
      prev.next := next;
    }
    if next != null {
      next.prev := prev;
    }
    WithoutLinks(cs, j);
    WithoutEnds(cs, j);
  }

  lemma WithoutLinks(cs: seq<Bucket>, j: nat)
    requires j < |cs|
    requires forall i :: 0 <= i < |cs| && i != j ==> cs[i].prev == if i == j + 1 then PrevOf(cs, j) else PrevOf(cs, i)
    requires forall i :: 0 <= i < |cs| && i != j ==> cs[i].next == if i == j - 1 then NextOf(cs, j) else NextOf(cs, i)
    requires forall i, k :: 0 <= i < k < |cs| ==> cs[i] != cs[k]
    ensures var ds := Without(cs, j); Linked(ds, NextOf(ds, -1), PrevOf(ds, |ds|))
  {
    var ds := Without(cs, j);
    forall i | 0 <= i < |ds| ensures ds[i].prev == PrevOf(ds, i) && ds[i].next == NextOf(ds, i) {
      var k := if i < j then i else i + 1;
      assert ds[i] == cs[k];
    }
  }

  lemma WithoutEnds(cs: seq<Bucket>, j: nat)
    requires j < |cs|
    ensures var ds := Without(cs, j);
      && NextOf(ds, -1) == (if j == 0 then NextOf(cs, 0) else NextOf(cs, -1))
      && PrevOf(ds, |ds|) == (if j == |cs| - 1 then PrevOf(cs, j) else PrevOf(cs, |cs|))
      && (j == 0 <==> PrevOf(cs, j) == null) && (j == |cs| - 1 <==> NextOf(cs, j) == null)
  {
  }

  lemma ClassesAreApart(chains: seq<seq<Bucket>>, views: map<Bucket, View>, larges: seq<LargeAlloc>,
      metas: map<LargeAlloc, Slice>, k: nat)
    requires Listed(chains, views, larges, metas) && k < |chains|
    ensures forall i :: 0 <= i < |chains| && i != k ==> forall c :: c in chains[i] ==> c !in chains[k]
    ensures forall i :: 0 <= i < |chains| ==> forall c :: c in chains[i] ==> c in views
  {
    forall i | 0 <= i < |chains| && i != k ensures forall c :: c in chains[i] ==> c !in chains[k] {
      forall c | c in chains[i] ensures c !in chains[k] {
        assert views[c].cls == i;
      }
    }
  }

  method LinkBehind(bucket: Bucket, tail: Bucket?, ghost cs: seq<Bucket>, ghost head: Bucket?)
    requires Linked(cs, head, tail) && bucket !in cs
    modifies bucket`prev, bucket`next, cs`next
    ensures Linked(cs + [bucket], if tail == null then bucket else head, bucket)
  {
    LinksOf(cs, head, tail);
    hide Linked;
    bucket.prev := tail;
    bucket.next := null;
    if bucket.prev != null {
      bucket.prev.next := bucket;
    }
    AppendedLinks(cs, bucket);
  }

  lemma LinksOf(cs: seq<Bucket>, head: Bucket?, tail: Bucket?)
    requires Linked(cs, head, tail)
    ensures head == NextOf(cs, -1) && tail == PrevOf(cs, |cs|)
    ensures forall i :: 0 <= i < |cs| ==> cs[i].prev == PrevOf(cs, i) && cs[i].next == NextOf(cs, i)
    ensures forall i, j :: 0 <= i < j < |cs| ==> cs[i] != cs[j]
  {
  }

  lemma FirstLinked(cs: seq<Bucket>, head: Bucket?, tail: Bucket?)
    requires Linked(cs, head, tail)
    ensures head == NextOf(cs, -1)
  {
  }

  /** Where the walk along a chain goes from a bucket, and where it ends. */
  lemma NextLinked(cs: seq<Bucket>, head: Bucket?, tail: Bucket?, b: Bucket?, j: nat)
    requires Linked(cs, head, tail) && j <= |cs| && b == NextOf(cs, j - 1)
    ensures if b == null then j == |cs| else j < |cs| && b == cs[j] && b.next == NextOf(cs, j)
  {
  }

  lemma AppendedLinks(cs: seq<Bucket>, b: Bucket)
    requires forall i :: 0 <= i < |cs| ==> cs[i].prev == PrevOf(cs, i)
    requires forall i :: 0 <= i < |cs| ==> cs[i].next == if i + 1 < |cs| then NextOf(cs, i) else b
    requires forall i, j :: 0 <= i < j < |cs| ==> cs[i] != cs[j]
    requires b !in cs && b.prev == PrevOf(cs, |cs|) && b.next == null
    ensures Linked(cs + [b], if cs == [] then b else cs[0], b)
  {
    var ds := cs + [b];
    forall i | 0 <= i < |ds| ensures ds[i].prev == PrevOf(ds, i) {
      assert if i < |cs| then ds[i] == cs[i] && PrevOf(ds, i) == PrevOf(cs, i) else ds[i] == b;
    }
    forall i | 0 <= i < |ds| ensures ds[i].next == NextOf(ds, i) {
      assert if i < |cs| then ds[i] == cs[i] else ds[i] == b;
      assert i + 1 < |cs| ==> NextOf(ds, i) == NextOf(cs, i);
    }
  }
}
