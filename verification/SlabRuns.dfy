/** Runs of equal slots in a slab: the bookkeeping behind `cu_SlabAllocator`. */
module SlabRuns {
  import opened Slots

  const HEADER: nat := 24

  /** A live allocation: the slots it owns, and its user bytes in the slab's data. */
  datatype Run = Run(index: nat, count: nat, pos: nat, len: nat)
  {
    predicate Owns(i: nat) { index <= i < index + count }
  }

  ghost predicate Shaped(r: Run, s: nat, n: nat) {
    && 1 <= r.count && r.index + r.count <= n
    && Off(r.index, s) + HEADER <= r.pos && r.pos + r.len <= Off(r.index + r.count, s)
  }

  ghost predicate Disjoint(r: Run, q: Run) {
    r.index + r.count <= q.index || q.index + q.count <= r.index
  }

  /** Each header and user slice lies inside its own run, and runs are disjoint. */
  ghost predicate RunsOk(runs: set<Run>, s: nat, n: nat) {
    && (forall r :: r in runs ==> Shaped(r, s, n))
    && (forall r, q :: r in runs && q in runs && r != q ==> Disjoint(r, q))
  }

  ghost predicate Covered(runs: set<Run>, i: nat) {
    exists r :: r in runs && r.Owns(i)
  }

  /** The bitmap is the union of the live runs. */
  ghost predicate BitsAre(bits: seq<bool>, runs: set<Run>) {
    forall i: nat {:trigger Covered(runs, i)} :: i < |bits| ==> (bits[i] <==> Covered(runs, i))
  }

  function SetRange(bits: seq<bool>, lo: nat, hi: nat, v: bool): (r: seq<bool>)
    requires lo <= hi <= |bits|
    ensures |r| == |bits|
    ensures forall i :: 0 <= i < |bits| ==> r[i] == if lo <= i < hi then v else bits[i]
  {
    seq(|bits|, i requires 0 <= i < |bits| => if lo <= i < hi then v else bits[i])
  }

  predicate ClearRun(bits: seq<bool>, j: nat, need: nat) {
    j + need <= |bits| && forall i :: j <= i < j + need ==> !bits[i]
  }

  predicate SetRun(bits: seq<bool>, j: nat, need: nat) {
    j + need <= |bits| && forall i :: j <= i < j + need ==> bits[i]
  }

  /** The number of clear bits below `n`. */
  function CountClear(bits: seq<bool>, n: nat): (c: nat)
    requires n <= |bits|
    ensures c <= n
  {
    if n == 0 then 0 else CountClear(bits, n - 1) + (if bits[n - 1] then 0 else 1)
  }

  /** How much of `[lo, hi)` lies below `n`. */
  function Below(lo: nat, hi: nat, n: nat): nat {
    if n <= lo then 0 else if n <= hi then n - lo else if lo <= hi then hi - lo else 0
  }

  /** Flipping a uniform range moves the free count by its length. */
  lemma {:induction false} CountSetRange(bits: seq<bool>, lo: nat, hi: nat, v: bool, n: nat)
    requires lo <= hi <= |bits| && n <= |bits| && forall i :: lo <= i < hi ==> bits[i] == !v
    ensures CountClear(SetRange(bits, lo, hi, v), n) + (if v then Below(lo, hi, n) else 0) ==
            CountClear(bits, n) + (if v then 0 else Below(lo, hi, n))
  {
    if n > 0 { CountSetRange(bits, lo, hi, v, n - 1); }
  }

  /** A slab whose free count is too small has no run of that length. */
  lemma {:induction false} ClearRunIsCounted(bits: seq<bool>, j: nat, need: nat, n: nat)
    requires ClearRun(bits, j, need) && n <= |bits|
    ensures CountClear(bits, n) >= Below(j, j + need, n)
  {
    if n > 0 { ClearRunIsCounted(bits, j, need, n - 1); }
  }

  lemma {:induction false} CountAllClear(bits: seq<bool>, n: nat)
    requires n <= |bits| && forall i :: 0 <= i < |bits| ==> !bits[i]
    ensures CountClear(bits, n) == n
  {
    if n > 0 { CountAllClear(bits, n - 1); }
  }

  lemma AddRun(bits: seq<bool>, runs: set<Run>, s: nat, r: Run)
    requires RunsOk(runs, s, |bits|) && BitsAre(bits, runs)
    requires Shaped(r, s, |bits|) && ClearRun(bits, r.index, r.count)
    ensures r !in runs && RunsOk(runs + {r}, s, |bits|)
    ensures BitsAre(SetRange(bits, r.index, r.index + r.count, true), runs + {r})
  {
    forall q | q in runs ensures Disjoint(r, q) && q != r {
      var i := if r.index < q.index then q.index else r.index;
      assert q.Owns(i) ==> Covered(runs, i);
    }
    forall i: nat | i < |bits| ensures Covered(runs + {r}, i) <==> r.Owns(i) || bits[i] {
      if r.Owns(i) { assert r in runs + {r}; }
      if bits[i] {
        assert Covered(runs, i);
        var q :| q in runs && q.Owns(i);
        assert q in runs + {r};
      }
      if Covered(runs + {r}, i) && !r.Owns(i) {
        var q :| q in runs + {r} && q.Owns(i);
        assert q in runs && Covered(runs, i);
      }
    }
  }

  /** Replacing a run by a shorter one frees exactly the slots given up; a run cut
      to no slots at all is gone. */
  lemma CutRun(bits: seq<bool>, runs: set<Run>, s: nat, r: Run, q: Run, keep: set<Run>)
    requires RunsOk(runs, s, |bits|) && BitsAre(bits, runs) && r in runs
    requires q.index == r.index && q.count <= r.count
    requires keep == (if q.count == 0 then {} else {q}) && (q.count > 0 ==> Shaped(q, s, |bits|))
    ensures RunsOk(runs - {r} + keep, s, |bits|)
    ensures SetRun(bits, r.index + q.count, r.count - q.count)
    ensures BitsAre(SetRange(bits, r.index + q.count, r.index + r.count, false), runs - {r} + keep)
  {
    var next := runs - {r} + keep;
    forall p | p in runs && p != r ensures Disjoint(p, q) && Disjoint(q, p) {
      assert Disjoint(p, r);
    }
    forall i: nat | r.Owns(i) ensures bits[i] { assert Covered(runs, i); }
    forall i: nat | i < |bits|
      ensures Covered(next, i) <==> bits[i] && !(r.index + q.count <= i < r.index + r.count)
    {
      if Covered(next, i) {
        var p :| p in next && p.Owns(i);
        if p in runs && p != r { assert Disjoint(p, r) && Covered(runs, i); }
      }
      if bits[i] && !(r.index + q.count <= i < r.index + r.count) {
        assert Covered(runs, i);
        var p :| p in runs && p.Owns(i);
        if p == r { assert q.Owns(i) && q in next; } else { assert p in next; }
      }
    }
  }

  /** Disjoint slots are disjoint bytes, headers included. */
  lemma RunsApart(runs: set<Run>, s: nat, n: nat, r: Run, q: Run)
    requires RunsOk(runs, s, n) && r in runs && q in runs && r != q
    ensures r.pos + r.len + HEADER <= q.pos || q.pos + q.len + HEADER <= r.pos
  {
    assert Disjoint(r, q);
    if r.index + r.count <= q.index {
      OffMonotone(r.index + r.count, q.index, s);
    } else {
      OffMonotone(q.index + q.count, r.index, s);
    }
  }
}
