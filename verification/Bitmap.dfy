/** `cu_Bitmap`: a set of small indices packed into 64-bit words. */
module Bitmaps {
  import opened Bits

  const WORD_BITS: nat := 64

  class Bitmap {
    const bitCount: nat
    const bits: array<nat>

    ghost predicate Valid()
    {
      bits.Length == (bitCount + WORD_BITS - 1) / WORD_BITS
    }

    predicate Packed(index: nat)
      requires Valid() && index < bitCount
      reads bits
    {
      Bit(bits[index / WORD_BITS], index % WORD_BITS)
    }

    /** The bitmap as one truth value per index. */
    ghost function Used(): (u: seq<bool>)
      requires Valid()
      reads bits
      ensures |u| == bitCount
    {
      seq(bitCount, i requires 0 <= i < bitCount reads bits => Packed(i))
    }

    constructor (bitCount: nat)
      ensures Valid() && fresh(bits) && this.bitCount == bitCount
      ensures Used() == seq(bitCount, _ => false)
    {
      this.bitCount := bitCount;
      bits := new nat[(bitCount + WORD_BITS - 1) / WORD_BITS];
      new;
      ClearAll();
    }

    /** `cu_Bitmap_create`: no bitmap without bits, and none when its words are refused. */
    static method Create(bitCount: nat, granted: bool) returns (r: Bitmap?)
      ensures r == null <==> bitCount == 0 || !granted
      ensures r != null ==>
        && fresh(r) && fresh(r.bits) && r.Valid() && r.bitCount == bitCount
        && r.Used() == seq(bitCount, _ => false)
    {
      if bitCount == 0 || !granted {
        return null;
      }
      r := new Bitmap(bitCount);
    }

    method Get(index: nat) returns (b: bool)
      requires Valid()
      ensures b <==> index < bitCount && Used()[index]
    {
      if index >= bitCount {
        return false;
      }
      var bitIndex, bitOffset := index / WORD_BITS, index % WORD_BITS;
      b := And(bits[bitIndex], Pow2(bitOffset)) != 0;
      SelectsOne(bits[bitIndex], bitOffset);
    }

    method Set(index: nat)
      requires Valid()
      modifies bits
      ensures Used() == if index < bitCount then old(Used())[index := true] else old(Used())
    {
      if index >= bitCount {
        return;
      }
      var bitIndex, bitOffset := index / WORD_BITS, index % WORD_BITS;
      bits[bitIndex] := Or(bits[bitIndex], Pow2(bitOffset));
      forall i: nat | i < bitCount
        ensures Packed(i) <==> i == index || old(Packed(i))
      {
        BitOfOr(old(bits[bitIndex]), Pow2(bitOffset), i % WORD_BITS);
        BitOfPow2(bitOffset, i % WORD_BITS);
      }
    }

    method Clear(index: nat)
      requires Valid()
      modifies bits
      ensures Used() == if index < bitCount then old(Used())[index := false] else old(Used())
    {
      if index >= bitCount {
        return;
      }
      var bitIndex, bitOffset := index / WORD_BITS, index % WORD_BITS;
      bits[bitIndex] := AndNot(bits[bitIndex], Pow2(bitOffset));
      forall i: nat | i < bitCount
        ensures Packed(i) <==> i != index && old(Packed(i))
      {
        BitOfAndNot(old(bits[bitIndex]), Pow2(bitOffset), i % WORD_BITS);
        BitOfPow2(bitOffset, i % WORD_BITS);
      }
    }

    method ClearAll()
      requires Valid()
      modifies bits
      ensures Used() == seq(bitCount, _ => false)
    {
      var size := (bitCount + WORD_BITS - 1) / WORD_BITS;
      for i := 0 to size
        invariant forall k :: 0 <= k < i ==> bits[k] == 0
      {
        bits[i] := 0;
      }
      forall i: nat | i < bitCount ensures !Packed(i) { ZeroHasNoBits(i % WORD_BITS); }
    }
  }

  /** Masking with one digit tests that digit. */
  lemma SelectsOne(x: nat, k: nat)
    ensures And(x, Pow2(k)) != 0 <==> Bit(x, k)
  {
    BitOfAnd(x, Pow2(k), k);
    BitOfPow2(k, k);
    ZeroHasNoBits(k);
    if !Bit(x, k) {
      forall i: nat ensures Bit(And(x, Pow2(k)), i) <==> Bit(0, i) {
        BitOfAnd(x, Pow2(k), i);
        BitOfPow2(k, i);
        ZeroHasNoBits(i);
      }
      SameBits(And(x, Pow2(k)), 0);
    }
  }
}
