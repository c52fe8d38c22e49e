/** Byte memory in which a multi-byte header is visible as a whole. A cell is a
    user byte or the k-th byte of a stored header; a header can be loaded only
    where all of its bytes are still in place. */
module Memory {

  datatype Cell<+W> = Byte(value: nat) | Part(word: W, k: nat)

  /** The `n` bytes at `pos` are those of header `w`. */
  ghost predicate HoldsWord<W>(m: seq<Cell<W>>, pos: nat, n: nat, w: W) {
    pos + n <= |m| && forall k :: pos <= k < pos + n ==> m[k] == Part(w, k - pos)
  }

  function Stored<W>(m: seq<Cell<W>>, pos: nat, n: nat, w: W): (r: seq<Cell<W>>)
    requires pos + n <= |m|
    ensures |r| == |m|
    ensures forall i :: 0 <= i < |m| ==> r[i] == if pos <= i < pos + n then Part(w, i - pos) else m[i]
  {
    seq(|m|, i requires 0 <= i < |m| => if pos <= i < pos + n then Part(w, i - pos) else m[i])
  }

  method StoreWord<W>(a: array<Cell<W>>, pos: nat, n: nat, w: W)
    requires pos + n <= a.Length
    modifies a
    ensures a[..] == Stored(old(a[..]), pos, n, w)
    ensures HoldsWord(a[..], pos, n, w)
  {
    forall i | pos <= i < pos + n {
      a[i] := Part(w, i - pos);
    }
  }

  method LoadWord<W>(a: array<Cell<W>>, pos: nat, n: nat, ghost w: W) returns (r: W)
    requires n > 0 && HoldsWord(a[..], pos, n, w)
    ensures r == w
  {
    assert a[..][pos] == Part(w, 0);
    r := a[pos].word;
  }

  /** `cu_Memory_memcpy` between two places that do not overlap. */
  method Copy<W>(dst: array<Cell<W>>, d: nat, src: array<Cell<W>>, s: nat, n: nat)
    requires d + n <= dst.Length && s + n <= src.Length
    requires dst != src || s + n <= d || d + n <= s
    modifies dst
    ensures CopiedTo(old(src[..]), s, dst[..], d, n)
    ensures SameOn(old(dst[..]), dst[..], 0, d) && SameOn(old(dst[..]), dst[..], d + n, dst.Length)
  {
    for k := 0 to n
      invariant forall i :: 0 <= i < dst.Length ==>
        dst[i] == if d <= i < d + k then old(src[s + (i - d)]) else old(dst[i])
    {
      dst[d + k] := src[s + k];
    }
  }

  /** Two memories agree on the bytes from `lo` up to `hi`. */
  ghost predicate SameOn<W>(m: seq<Cell<W>>, n: seq<Cell<W>>, lo: int, hi: int) {
    |m| == |n| && forall i :: 0 <= i < |m| && lo <= i < hi ==> m[i] == n[i]
  }

  /** `n` bytes from `s` on in the old memory are those from `d` on in the new. */
  ghost predicate CopiedTo<W>(m: seq<Cell<W>>, s: nat, r: seq<Cell<W>>, d: nat, n: nat) {
    s + n <= |m| && d + n <= |r| && forall i :: d <= i < d + n ==> r[i] == m[s + (i - d)]
  }
}
