/** `cu_Memory_memmove`: copying between stretches of one buffer that may overlap. */
module Nostd {

  /** The buffer once `n` elements from `s` on stand at `d`. */
  function Moved<T>(m: seq<T>, d: nat, s: nat, n: nat): (r: seq<T>)
    requires d + n <= |m| && s + n <= |m|
    ensures |r| == |m|
    ensures forall i :: 0 <= i < |m| ==> r[i] == if d <= i < d + n then m[s + (i - d)] else m[i]
  {
    seq(|m|, i requires 0 <= i < |m| => if d <= i < d + n then m[s + (i - d)] else m[i])
  }

  /** Copies forwards when the destination comes first and backwards otherwise. */
  method Memmove<T>(a: array<T>, d: nat, s: nat, n: nat)
    requires d + n <= a.Length && s + n <= a.Length
    modifies a
    ensures a[..] == Moved(old(a[..]), d, s, n)
  {
    ghost var m := a[..];
    if d < s {
      var k := 0;
      while k < n
        invariant 0 <= k <= n
        invariant a[..] == Moved(m, d, s, k)
      {
        assert a[..][s + k] == m[s + k];
        a[d + k] := a[s + k];
        k := k + 1;
      }
    } else {
      var k := n;
      while k > 0
        invariant 0 <= k <= n
        invariant a[..] == Moved(m, d + k, s + k, n - k)
      {
        k := k - 1;
        assert a[..][s + k] == m[s + k];
        a[d + k] := a[s + k];
      }
    }
  }
}
