/** Size-class arithmetic: `cu_next_pow2` and `CU_ALIGN_UP`. */
module Utility {
  import opened Bits

  function Min(a: nat, b: nat): nat { if a < b then a else b }

  function Max(a: nat, b: nat): nat { if a > b then a else b }

  predicate IsPow2(a: nat) {
    a > 0 && (a == 1 || (a % 2 == 0 && IsPow2(a / 2)))
  }

  lemma {:induction false} Pow2IsPow2(n: nat)
    ensures IsPow2(Pow2(n))
  {
    if n > 0 { Pow2IsPow2(n - 1); }
  }

  /** The exponent of a power of two, which is also the index of its only digit. */
  function Log2(a: nat): (n: nat)
    requires IsPow2(a)
    ensures Pow2(n) == a
  {
    if a == 1 then 0 else 1 + Log2(a / 2)
  }

  lemma {:induction false} Log2OfPow2(n: nat)
    ensures IsPow2(Pow2(n)) && Log2(Pow2(n)) == n
  {
    Pow2IsPow2(n);
    if n > 0 { Log2OfPow2(n - 1); }
  }

  /** The least power of two that is at least `x`. */
  function CeilPow2(x: nat): (r: nat)
    ensures IsPow2(r) && x <= r
  {
    if x <= 1 then 1 else
      var half := CeilPow2((x + 1) / 2);
      assert (2 * half) % 2 == 0 && (2 * half) / 2 == half && x <= 2 * half;
      2 * half
  }

  lemma {:induction false} CeilPow2IsLeast(x: nat, p: nat)
    requires IsPow2(p) && x <= p
    ensures CeilPow2(x) <= p
  {
    if x > 1 { CeilPow2IsLeast((x + 1) / 2, p / 2); }
  }

  /** The logarithm of the least power of two that is at least `x`. */
  function CeilLog(x: nat): nat { Log2(CeilPow2(x)) }

  lemma CeilPow2Is(x: nat, n: nat)
    requires x <= Pow2(n) && (n > 0 ==> x > Pow2(n - 1))
    ensures CeilPow2(x) == Pow2(n) && Log2(CeilPow2(x)) == n
  {
    Pow2IsPow2(n);
    CeilPow2IsLeast(x, Pow2(n));
    var m := Log2(CeilPow2(x));
    if m < n { Pow2Monotone(m, n - 1); }
    if m > n { Pow2Monotone(n, m); }
  }

  lemma CeilLogBounds(x: nat)
    ensures x <= Pow2(CeilLog(x)) && (CeilLog(x) > 0 ==> x > Pow2(CeilLog(x) - 1))
  {
    var n := CeilLog(x);
    if n > 0 && x <= Pow2(n - 1) {
      Pow2IsPow2(n - 1);
      CeilPow2IsLeast(x, Pow2(n - 1));
    }
  }

  lemma CeilLogOfPow2(n: nat)
    ensures CeilLog(Pow2(n)) == n
  {
    if n > 0 { Pow2Monotone(n - 1, n); }
    CeilPow2Is(Pow2(n), n);
  }

  /** `y` has a digit wherever `x` has one less than `r` places further up. */
  ghost predicate Smeared(x: nat, y: nat, r: nat) {
    forall i: nat :: Bit(y, i) <==> exists j: nat :: i <= j < i + r && Bit(x, j)
  }

  lemma SmearStep(x: nat, y: nat, r: nat)
    requires Smeared(x, y, r)
    ensures Smeared(x, Or(y, Shr(y, r)), 2 * r)
  {
    forall i: nat
      ensures Bit(Or(y, Shr(y, r)), i) <==> exists j: nat :: i <= j < i + 2 * r && Bit(x, j)
    {
      BitOfOr(y, Shr(y, r), i);
      BitOfShr(y, r, i);
      assert Bit(y, i) <==> exists j: nat :: i <= j < i + r && Bit(x, j);
      assert Bit(y, i + r) <==> exists j: nat :: i + r <= j < i + r + r && Bit(x, j);
    }
  }

  /** Index of the highest digit. */
  lemma {:induction false} TopBit(x: nat) returns (m: nat)
    requires x > 0
    ensures Pow2(m) <= x < Pow2(m + 1) && Bit(x, m)
  {
    if x == 1 {
      m := 0;
    } else {
      m := TopBit(x / 2);
      m := m + 1;
    }
  }

  lemma SmearedBit(x: nat, y: nat, w: nat, m: nat, i: nat)
    requires Smeared(x, y, w) && x < Pow2(m + 1) && Bit(x, m) && m < w
    ensures Bit(y, i) <==> i <= m
  {
    if i <= m {
      assert i <= m < i + w && Bit(x, m);
    } else if Bit(y, i) {
      var j: nat :| i <= j < i + w && Bit(x, j);
      BitBeyond(x, m + 1, j);
    }
  }

  /** The least power of two above a number with top digit `m`. */
  lemma CeilAboveTop(x: nat, m: nat)
    requires Pow2(m) <= x < Pow2(m + 1)
    ensures CeilPow2(x + 1) == Pow2(m + 1)
  {
    Pow2IsPow2(m + 1);
    CeilPow2IsLeast(x + 1, Pow2(m + 1));
    var c := CeilPow2(x + 1);
    if Log2(c) <= m { Pow2Monotone(Log2(c), m); }
    Pow2Monotone(m + 1, Log2(c));
  }

  lemma SmearedIsMask(x: nat, y: nat, w: nat)
    requires 0 < x < Pow2(w) && Smeared(x, y, w)
    ensures y + 1 == CeilPow2(x + 1)
  {
    var m := TopBit(x);
    if m >= w { BitBeyond(x, w, m); }
    forall i: nat ensures Bit(y, i) <==> Bit(Pow2(m + 1) - 1, i) {
      BitOfMask(m + 1, i);
      SmearedBit(x, y, w, m, i);
    }
    SameBits(y, Pow2(m + 1) - 1);
    CeilAboveTop(x, m);
  }

  lemma WrapAt(x: nat, m: nat)
    requires m > 0
    ensures x < m ==> x % m == x
    ensures x == m ==> x % m == 0
  {
  }

  lemma FloorIsMultiple(s: nat, a: nat)
    requires a > 0
    ensures (s - s % a) % a == 0 && s % a < a
  {
    var t := s - s % a;
    assert t == s / a * a;
    ModUnique(t, a, s / a, 0);
  }

  /** A value fits below half the word exactly when its power of two does. */
  lemma CeilPow2WithinWord(x: nat, w: nat)
    requires 1 < x < Pow2(w) && w > 0
    ensures x <= Pow2(w - 1) ==> CeilPow2(x) < Pow2(w)
    ensures x > Pow2(w - 1) ==> CeilPow2(x) == Pow2(w)
  {
    var c := CeilPow2(x);
    if x <= Pow2(w - 1) {
      Pow2IsPow2(w - 1);
      CeilPow2IsLeast(x, Pow2(w - 1));
    } else {
      Pow2IsPow2(w);
      CeilPow2IsLeast(x, Pow2(w));
      if Log2(c) < w { Pow2Monotone(Log2(c), w - 1); }
      Pow2Monotone(w, Log2(c));
    }
  }

  /** The shift-and-or cascade: every digit below the top one becomes set. */
  method Smear(x: nat, w: nat) returns (y: nat)
    requires w == 32 || w == 64
    ensures Smeared(x, y, w)
  {
    y := x;
    y := SmearBy(x, y, 1);
    y := SmearBy(x, y, 2);
    y := SmearBy(x, y, 4);
    y := SmearBy(x, y, 8);
    y := SmearBy(x, y, 16);
    if w == 64 {
      y := SmearBy(x, y, 32);
    }
  }

  method SmearBy(ghost x: nat, y: nat, r: nat) returns (z: nat)
    requires Smeared(x, y, r)
    ensures Smeared(x, z, 2 * r)
  {
    SmearStep(x, y, r);
    z := Or(y, Shr(y, r));
  }

  /** `cu_next_pow2` on a word of `w` bits. Above the largest power of two of
      the word the final increment wraps to zero. */
  method NextPow2(x: nat, w: nat) returns (r: nat)
    requires w == 32 || w == 64
    requires x < Pow2(w)
    ensures x <= Pow2(w - 1) ==> r == CeilPow2(x)
    ensures x > Pow2(w - 1) ==> r == 0
  {
    hide Pow2, Smeared, IsPow2;
    if x <= 1 {
      return 1;
    }
    var y := Smear(x - 1, w);
    SmearedIsMask(x - 1, y, w);
    CeilPow2WithinWord(x, w);
    WrapAt(y + 1, Pow2(w));
    r := (y + 1) % Pow2(w);
  }

  const WORD_LIMIT: nat := 0x1_0000_0000_0000_0000

  lemma SmallPowers()
    ensures Pow2(1) == 2 && Pow2(4) == 16
  {
  }

  lemma WordLimitIs()
    ensures Pow2(64) == WORD_LIMIT && Pow2(63) == WORD_LIMIT / 2
  {
    hide Pow2;
    SmallPowers();
    Pow2Sum(4, 4);
    Pow2Sum(8, 8);
    Pow2Sum(16, 16);
    Pow2Sum(32, 32);
    Pow2Sum(1, 63);
  }

  /** `cu_next_pow2` where `size_t` has 64 bits. */
  method NextPow2Size(x: nat) returns (r: nat)
    requires x < WORD_LIMIT
    ensures x <= WORD_LIMIT / 2 ==> r == CeilPow2(x)
    ensures x > WORD_LIMIT / 2 ==> r == 0
  {
    WordLimitIs();
    r := NextPow2(x, 64);
  }

  /** `CU_ALIGN_UP`: `(x + a - 1) & ~(a - 1)`. */
  function AlignUp(x: nat, a: nat): nat
    requires a > 0
  {
    AndNot(x + a - 1, a - 1)
  }

  /** For a power of two `AlignUp` is the least multiple that is at least `x`. */
  lemma AlignUpIsLeastMultiple(x: nat, a: nat)
    requires IsPow2(a)
    ensures AlignUp(x, a) % a == 0
    ensures x <= AlignUp(x, a) < x + a
  {
    var s := x + a - 1;
    AndNotMaskIsFloor(s, Log2(a));
    FloorIsMultiple(s, a);
  }

  /** Adding a multiple of `m` keeps the remainder. */
  lemma SameRemainder(a: nat, o: nat, m: nat)
    requires m > 0 && o % m == 0
    ensures (a + o) % m == a % m
  {
    calc { a + o; a / m * m + a % m + o / m * m; (a / m + o / m) * m + a % m; }
    ModUnique(a + o, m, a / m + o / m, a % m);
  }

  /** A multiple less than a step above `x` is the least one from `x` on. */
  lemma LeastMultiple(x: nat, a: nat, m: nat, o: nat)
    requires a > 0 && m % a == 0 && o % a == 0 && m < x + a && x <= o
    ensures m <= o
  {
    if o < m {
      assert m - o == (m / a - o / a) * a;
      MulAtLeast(m / a - o / a, a);
    }
  }
}
