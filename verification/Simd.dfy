/** The four-lane multiply-accumulate unit of the CFU (function codes 5, 6 and 7 of cfu.v). */
module Simd {
  import opened Words

  /** Byte i of a 32-bit word, read as signed. */
  function Lane(w: uint32, i: nat): int8 {
    if i == 0 then ToInt8(w)
    else if i == 1 then ToInt8(w / 0x100)
    else if i == 2 then ToInt8(w / 0x1_0000)
    else ToInt8(w / 0x100_0000)
  }

  /** One lane's product. It lives on a 16-bit wire, whatever its true size. */
  function Tap(offset: int, x: int8, f: int8): int {
    ToInt16((x + offset) * f)
  }

  /** What one multiply-add command adds to the sum. */
  function LaneSum(offset: int, x: uint32, f: uint32): int {
    Tap(offset, Lane(x, 0), Lane(f, 0)) + Tap(offset, Lane(x, 1), Lane(f, 1))
    + Tap(offset, Lane(x, 2), Lane(f, 2)) + Tap(offset, Lane(x, 3), Lane(f, 3))
  }

  class SimdUnit {
    var offset: int
    var sum: int32

    ghost predicate Valid()
      reads this
    {
      -0x100 <= offset < 0x100
    }

    constructor ()
      ensures Valid()
    {
      offset, sum := 0, 0;
    }

    /** Code 7 keeps the low nine bits of its operand as the signed input offset. */
    method SetOffset(v: uint32)
      modifies this
      ensures Valid() && offset == ToInt9(v) && sum == old(sum)
    {
      offset := ToInt9(v);
    }

    /** Code 5 clears the sum and returns zero. */
    method Clear() returns (r: int32)
      requires Valid()
      modifies this
      ensures Valid() && offset == old(offset) && sum == 0 && r == 0
    {
      sum := 0;
      r := 0;
    }

    /** Code 6 adds the four lane products and returns the new sum. */
    method MultiplyAdd(x: uint32, f: uint32) returns (r: int32)
      requires Valid()
      modifies this
      ensures Valid() && offset == old(offset) && r == sum
      ensures sum == ToInt32(old(sum) + LaneSum(offset, x, f))
    {
      var p0 := ToInt16((Lane(x, 0) + offset) * Lane(f, 0));
      var p1 := ToInt16((Lane(x, 1) + offset) * Lane(f, 1));
      var p2 := ToInt16((Lane(x, 2) + offset) * Lane(f, 2));
      var p3 := ToInt16((Lane(x, 3) + offset) * Lane(f, 3));
      var products := ToInt32(p0 + p1 + p2 + p3);
      WrapAbsorbs(sum, p0 + p1 + p2 + p3);
      sum := ToInt32(sum + products);
      r := sum;
    }
  }

  // ---------- packing ----------

  /** The eight bits of a signed byte. */
  function Bits(b: int8): (r: int)
    ensures 0 <= r < 0x100
  {
    if b < 0 then b + 0x100 else b
  }

  /** The word at four consecutive bytes, the first in the low lane. */
  function Pack(b0: int8, b1: int8, b2: int8, b3: int8): uint32 {
    Bits(b0) + 0x100 * Bits(b1) + 0x1_0000 * Bits(b2) + 0x100_0000 * Bits(b3)
  }

  /** Packing puts each byte in its own lane. */
  lemma LanesOfPack(b0: int8, b1: int8, b2: int8, b3: int8)
    ensures var w := Pack(b0, b1, b2, b3);
      Lane(w, 0) == b0 && Lane(w, 1) == b1 && Lane(w, 2) == b2 && Lane(w, 3) == b3
  {
    var u0, u1, u2, u3 := Bits(b0), Bits(b1), Bits(b2), Bits(b3);
    var w := Pack(b0, b1, b2, b3);
    assert w / 0x100 == u1 + 0x100 * u2 + 0x1_0000 * u3;
    assert w / 0x1_0000 == u2 + 0x100 * u3;
    assert w / 0x100_0000 == u3;
    LowLane(b0, u1 + 0x100 * u2 + 0x1_0000 * u3);
    LowLane(b1, u2 + 0x100 * u3);
    LowLane(b2, u3);
    LowLane(b3, 0);
  }

  lemma LowLane(b: int8, q: int)
    ensures ToInt8(Bits(b) + 0x100 * q) == b
  {
  }

  /** The multiply-add of two packed words is the sum of the four byte products. */
  lemma PackedSum(offset: int, x0: int8, x1: int8, x2: int8, x3: int8, f0: int8, f1: int8, f2: int8, f3: int8)
    ensures LaneSum(offset, Pack(x0, x1, x2, x3), Pack(f0, f1, f2, f3))
         == Tap(offset, x0, f0) + Tap(offset, x1, f1) + Tap(offset, x2, f2) + Tap(offset, x3, f3)
  {
    hide Pack, Lane, Tap;
    LanesOfPack(x0, x1, x2, x3);
    LanesOfPack(f0, f1, f2, f3);
  }

  /** A lane filled with zeros in both words adds nothing, whatever the offset. */
  lemma ZeroLane(offset: int)
    ensures Tap(offset, 0, 0) == 0
  {
  }

  // ---------- when the 16-bit products are exact ----------

  /** The unit multiplies exactly, for every input and filter byte, exactly for the offsets from -127 to 129. */
  lemma TapExactIff(offset: int32)
    ensures (forall x: int8, f: int8 :: Tap(ToInt9(offset), x, f) == (x + offset) * f) <==> -127 <= offset <= 129
  {
    if -127 <= offset <= 129 {
      forall x: int8, f: int8 ensures Tap(ToInt9(offset), x, f) == (x + offset) * f {
        TapBound(offset, x, f);
      }
    } else {
      var x, f := InexactTap(offset);
    }
  }

  lemma TapBound(offset: int, x: int8, f: int8)
    requires -127 <= offset <= 129
    ensures -0x8000 <= (x + offset) * f < 0x8000
    ensures offset <= 128 ==> -32640 <= (x + offset) * f <= 32640
  {
    var s := x + offset;
    ProductBound(s, f, 256);
    if s <= 255 {
      ProductBound(s, f, 255);
    }
  }

  lemma ProductBound(s: int, f: int8, m: int)
    requires -255 <= s <= m && 255 <= m <= 256
    ensures -128 * m <= s * f <= 32640
  {
    if f >= 0 {
      MulMono(f, -255, s);
      MulMono(f, s, 256);
    } else {
      var g: int := 0 - f;
      assert s * g == -(s * f);
      MulMono(g, -255, s);
      MulMono(g, s, m);
      MulMono(m, g, 128);
    }
  }

  /** Bytes on which the unit goes wrong, for any other offset. */
  lemma InexactTap(offset: int32) returns (x: int8, f: int8)
    requires !(-127 <= offset <= 129)
    ensures ToInt32(Tap(ToInt9(offset), x, f)) != ToInt32((x + offset) * f)
  {
    if offset < -0x100 || offset >= 0x100 {
      x, f := 0, 1;
    } else if offset < 0 {
      x, f := -128, -128;
      LargeProduct((x + offset) * f);
    } else {
      x, f := 127, -128;
      LargeProduct((x + offset) * f);
    }
  }

  lemma LargeProduct(p: int)
    requires 0x8000 <= p < 0x1_0000 || -0x1_0000 <= p < -0x8000
    ensures ToInt32(ToInt16(p)) != ToInt32(p)
  {
  }
}
