/** Buckets of equal slots: what the general-purpose allocator keeps per bucket. */
module GpBuckets {
  import opened Slices
  import opened Bits
  import opened Slots
  import opened Utility

  const NUM_SMALL_BUCKETS: nat := 16
  const BUCKET_SIZE: nat := 4096

  /** A bucket's abstract state: its class, where its slots begin, and which of
      them are taken. */
  datatype View = View(cls: nat, data: nat, size: nat, bits: seq<bool>)

  datatype Span = Span(lo: nat, hi: nat)

  function SpanOf(v: View): Span { Span(v.data, v.data + Off(|v.bits|, v.size)) }

  function SliceSpan(s: Slice): Span { Span(s.ptr, s.ptr + s.len) }

  predicate Apart(s: Span, t: Span) { s.hi <= t.lo || t.hi <= s.lo }

  predicate Within(a: nat, s: Span) { s.lo <= a < s.hi }

  function SlotAddr(v: View, slot: nat): nat { v.data + Off(slot, v.size) }

  /** `cu_gpa_calc_slot_count`. */
  function SlotCount(bucketSize: nat, size: nat): (n: nat)
    requires size > 0
    ensures n > 0
  {
    if DivFloor(bucketSize, size) == 0 then 1 else DivFloor(bucketSize, size)
  }

  /** A bucket has every slot that fits in it whole, and at least one. */
  lemma SlotCountIsGreatest(bucketSize: nat, size: nat, n: nat)
    requires size > 0
    ensures SlotCount(bucketSize, size) <= n <==> 1 <= n && bucketSize < Off(n + 1, size)
  {
    DivFloorIsGreatest(bucketSize, size, n);
  }

  ghost predicate ViewOk(v: View, bucketSize: nat) {
    v.cls < NUM_SMALL_BUCKETS && v.size == Pow2(v.cls) && v.data > 0 && |v.bits| == SlotCount(bucketSize, v.size)
  }

  /** The number of taken slots below `n`. */
  function CountSet(bits: seq<bool>, n: nat): (c: nat)
    requires n <= |bits|
    ensures c <= n
  {
    if n == 0 then 0 else CountSet(bits, n - 1) + (if bits[n - 1] then 1 else 0)
  }

  function Population(bits: seq<bool>): nat { CountSet(bits, |bits|) }

  lemma {:induction false} CountFlip(bits: seq<bool>, i: nat, v: bool, n: nat)
    requires i < |bits| && n <= |bits| && bits[i] == !v
    ensures CountSet(bits[i := v], n) ==
      if n <= i then CountSet(bits, n) else if v then CountSet(bits, n) + 1 else CountSet(bits, n) - 1
  {
    if n > 0 { CountFlip(bits, i, v, n - 1); }
  }

  lemma {:induction false} CountAll(bits: seq<bool>, n: nat)
    requires n <= |bits|
    ensures CountSet(bits, n) == n <==> forall i :: 0 <= i < n ==> bits[i]
    ensures CountSet(bits, n) == 0 <==> forall i :: 0 <= i < n ==> !bits[i]
  {
    if n > 0 { CountAll(bits, n - 1); }
  }

  /** The lowest free slot at or after `j`. */
  function FirstClear(bits: seq<bool>, j: nat): (r: nat)
    requires j <= |bits|
    ensures j <= r <= |bits| && (r < |bits| ==> !bits[r])
    ensures forall i :: j <= i < r ==> bits[i]
    decreases |bits| - j
  {
    if j == |bits| || !bits[j] then j else FirstClear(bits, j + 1)
  }

  /** `cu_gpa_index_from_size`: the exact logarithm of a power of two below `2^16`,
      and in general the class of the least power of two that is large enough. */
  method IndexFromSize(size: nat) returns (idx: int)
    ensures idx == if CeilLog(size) < NUM_SMALL_BUCKETS then CeilLog(size) else -1
  {
    idx := 0;
    var s := 1;
    CeilLogBounds(size);
    while s < size && idx < NUM_SMALL_BUCKETS
      invariant 0 <= idx <= NUM_SMALL_BUCKETS && s == Pow2(idx) && idx <= CeilLog(size)
      decreases NUM_SMALL_BUCKETS - idx
    {
      if idx == CeilLog(size) { assert false; }
      s := s * 2;
      idx := idx + 1;
    }
    if idx < CeilLog(size) && s >= size { Pow2Monotone(idx, CeilLog(size) - 1); }
    if idx >= NUM_SMALL_BUCKETS {
      idx := -1;
    }
  }

  /** The slot an address of a bucket falls into. */
  lemma SlotOf(v: View, slot: nat)
    requires v.size > 0 && slot < |v.bits|
    ensures Within(SlotAddr(v, slot), SpanOf(v)) && (SlotAddr(v, slot) - v.data) / v.size == slot
    ensures SlotAddr(v, slot) + v.size <= SpanOf(v).hi
  {
    OffIsProduct(slot, v.size);
    ModUnique(Off(slot, v.size), v.size, slot, 0);
    OffMonotone(slot + 1, |v.bits|, v.size);
  }

  lemma SlotsApart(v: View, i: nat, j: nat)
    requires i < j < |v.bits|
    ensures SlotAddr(v, i) + v.size <= SlotAddr(v, j)
  {
    OffMonotone(i + 1, j, v.size);
  }
}
