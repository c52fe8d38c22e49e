/** Equal slots in a row: offsets and counts, without a product or a quotient of
    unknowns in any specification. */
module Slots {
  import Bits

  /** The byte offset of slot `i` when slots have `s` bytes. */
  function Off(i: nat, s: nat): nat {
    if i == 0 then 0 else Off(i - 1, s) + s
  }

  lemma {:induction false} OffIsProduct(i: nat, s: nat)
    ensures Off(i, s) == i * s
  {
    if i > 0 { OffIsProduct(i - 1, s); }
  }

  lemma {:induction false} OffMonotone(i: nat, j: nat, s: nat)
    requires i <= j
    ensures Off(i, s) <= Off(j, s)
    decreases j
  {
    if i < j { OffMonotone(i, j - 1, s); }
  }

  lemma {:induction false} OffSum(i: nat, j: nat, s: nat)
    ensures Off(i + j, s) == Off(i, s) + Off(j, s)
  {
    if j > 0 {
      OffSum(i, j - 1, s);
      assert i + j - 1 == i + (j - 1);
    }
  }

  method SlotOffset(index: nat, s: nat) returns (start: nat)
    ensures start == Off(index, s)
  {
    OffIsProduct(index, s);
    start := index * s;
  }

  /** How many slots of `y` bytes it takes to hold `x` bytes. */
  function DivCeil(x: nat, y: nat): (n: nat)
    requires y > 0
    ensures x > 0 ==> n >= 1
  {
    if x == 0 then 0 else if x <= y then 1 else 1 + DivCeil(x - y, y)
  }

  /** `CU_DIV_CEIL` computes it by one rounded-up division. */
  lemma {:induction false} DivCeilIsQuotient(x: nat, y: nat)
    requires y > 0
    ensures DivCeil(x, y) == (x + y - 1) / y
  {
    if x > y {
      DivCeilIsQuotient(x - y, y);
      Bits.ModUnique(x + y - 1, y, 1 + (x - 1) / y, (x - 1) % y);
    } else {
      Bits.ModUnique(x + y - 1, y, if x == 0 then 0 else 1, if x == 0 then y - 1 else x - 1);
    }
  }

  /** How many whole slots of `y` bytes fit in `x` bytes. */
  function DivFloor(x: nat, y: nat): nat
    requires y > 0
  {
    if x < y then 0 else 1 + DivFloor(x - y, y)
  }

  lemma {:induction false} DivFloorIsQuotient(x: nat, y: nat)
    requires y > 0
    ensures DivFloor(x, y) == x / y
  {
    if x < y {
      Bits.ModUnique(x, y, 0, x);
    } else {
      DivFloorIsQuotient(x - y, y);
      Bits.ModUnique(x, y, 1 + (x - y) / y, (x - y) % y);
    }
  }

  /** One slot more than the whole ones does not fit. */
  lemma {:induction false} DivFloorIsGreatest(x: nat, y: nat, n: nat)
    requires y > 0
    ensures DivFloor(x, y) <= n <==> x < Off(n + 1, y)
    decreases x
  {
    if x >= y {
      if n > 0 { DivFloorIsGreatest(x - y, y, n - 1); }
      OffSum(n, 1, y);
    } else {
      OffMonotone(1, n + 1, y);
    }
  }

  method SlotsIn(x: nat, y: nat) returns (n: nat)
    requires y > 0
    ensures n == DivFloor(x, y)
  {
    DivFloorIsQuotient(x, y);
    n := x / y;
  }

  method SlotsFor(x: nat, y: nat) returns (n: nat)
    requires y > 0
    ensures n == DivCeil(x, y)
  {
    DivCeilIsQuotient(x, y);
    n := (x + y - 1) / y;
  }

  /** The least number of slots of `y` bytes that hold `x` bytes. */
  lemma {:induction false} DivCeilIsLeast(x: nat, y: nat)
    requires y > 0
    ensures x <= Off(DivCeil(x, y), y)
    ensures forall q: nat :: x <= Off(q, y) ==> DivCeil(x, y) <= q
  {
    if x > y {
      DivCeilIsLeast(x - y, y);
      forall q: nat | x <= Off(q, y) ensures DivCeil(x, y) <= q {
        assert x - y <= Off(q - 1, y);
      }
    } else if x > 0 {
      assert Off(1, y) == y;
    }
  }
}
