/** Address ordinals as the values of C's 32-bit `unsigned long`, for the loops that walk an
    address range (src/scan.c, src/parallel_scan.c). Increment wraps at 2^32 as in C. */
module Ordinals {

  /** The value of a 32-bit unsigned integer. */
  type U32 = x: int | 0 <= x < 0x1_0000_0000

  const U32Max: U32 := 0xFFFF_FFFF

  /** The value held by a 32-bit pattern. */
  function Ordinal(b: bv32): U32 {
    b as int
  }

  /** The 32-bit pattern of a value. */
  function Bits(x: U32): bv32 {
    x as bv32
  }

  /** The 8-bit pattern holding a value below 256. */
  function OctetBits(v: nat): (b: bv8)
    requires v < 256
    ensures b as nat == v
  {
    if v == 0 then 0
    else
      var b := OctetBits(v - 1);
      OctetIncrement(b);
      b + 1
  }

  /** Every 8-bit pattern is the pattern of its own value. */
  lemma {:induction false} OctetBitsOfValue(x: bv8)
    ensures OctetBits(x as nat) == x
  {
    var b := OctetBits(x as nat);
    assert (b as nat) as bv8 == b;
    assert (x as nat) as bv8 == x;
  }

  lemma {:induction false} OctetIncrement(b: bv8)
    requires b as nat < 255
    ensures (b + 1) as nat == b as nat + 1
  {
  }

  /** `++x` on a 32-bit unsigned integer: the successor, except that the largest value wraps
      to 0. */
  function Inc(x: U32): (r: U32)
    ensures x < U32Max ==> r == x + 1
    ensures x == U32Max ==> r == 0
  {
    (x + 1) % 0x1_0000_0000
  }

  /** The ordinals `lo, lo + 1, ..., hi`, empty when `hi < lo`. */
  function Range(lo: U32, hi: U32): (r: seq<U32>)
    ensures |r| == if lo <= hi then hi - lo + 1 else 0
    ensures forall k | 0 <= k < |r| :: r[k] == lo + k
    decreases hi - lo
  {
    if lo > hi then []
    else if lo == hi then [lo]
    else [lo] + Range(lo + 1, hi)
  }

  /** The loop `for (x = lo; x <= hi; ++x)` visits `lo` and then continues from `++lo`,
      provided `hi` is not the largest value (otherwise `++x` wraps to 0 and the loop never
      ends). */
  lemma {:induction false} RangeStep(lo: U32, hi: U32)
    requires lo <= hi < U32Max
    ensures Range(lo, hi) == [lo] + Range(Inc(lo), hi)
  {
  }

  /** Every ordinal of a range lies between its ends, each occurs once, and they ascend. */
  lemma {:induction false} RangeOrdered(lo: U32, hi: U32)
    ensures forall k | 0 <= k < |Range(lo, hi)| :: lo <= Range(lo, hi)[k] <= hi
    ensures forall j, k | 0 <= j < k < |Range(lo, hi)| :: Range(lo, hi)[j] < Range(lo, hi)[k]
    ensures forall x: U32 :: x in Range(lo, hi) <==> lo <= x <= hi
  {
    var r := Range(lo, hi);
    forall x: U32 | lo <= x <= hi
      ensures x in r
    {
      assert r[x - lo] == x;
    }
  }
}
