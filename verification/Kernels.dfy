/** What the two accelerated TFLite kernels share: dot products of signed bytes and the final requantisation. */
module Kernels {
  import opened Words

  /** What one input byte and one filter byte contribute to a sum. */
  type TapFunction = (int8, int8) -> int

  /** The reference kernels' contribution. */
  function ExactTap(offset: int): TapFunction {
    (x: int8, f: int8) => (x + offset) * f
  }

  /** The first n channels: bytes from position i of the input and j of the filter. */
  function ChannelSum(tap: TapFunction, input: seq<int8>, i: int, filter: seq<int8>, j: int, n: nat): int
    requires 0 <= i && i + n <= |input| && 0 <= j && j + n <= |filter|
  {
    if n == 0 then 0
    else ChannelSum(tap, input, i, filter, j, n - 1) + tap(input[i + n - 1], filter[j + n - 1])
  }

  /** Output offset and activation range of a layer. TFLite's fixed-point rescale is left open. */
  datatype Activation = Activation(outputOffset: int32, min: int32, max: int32, rescale: (int32, int32, int32) -> int32)
  {
    predicate Allows(y: int) { min <= y <= max }
  }

  /** An optional per-channel bias. */
  datatype Bias = NoBias | Bias(values: seq<int32>)
  {
    predicate Covers(depth: nat) { Bias? ==> |values| >= depth }

    function Added(acc: int32, oc: nat): int32
      requires Covers(oc + 1)
    {
      if NoBias? then acc else ToInt32(acc + values[oc])
    }
  }

  /** From the biased 32-bit accumulator to the output byte. */
  function Requantize(a: Activation, acc: int32, multiplier: int32, shift: int32): int8 {
    var scaled := ToInt32(a.rescale(acc, multiplier, shift) + a.outputOffset);
    var low := if scaled < a.min then a.min else scaled;
    ToInt8(if low > a.max then a.max else low)
  }

  /** The end of both kernels' inner loop, step by step: bias, rescale, output offset, activation range, byte. */
  method FinishSum(a: Activation, bias: Bias, oc: nat, sum: int32, multiplier: int32, shift: int32)
    returns (r: int8)
    requires bias.Covers(oc + 1)
    ensures r == Requantize(a, bias.Added(sum, oc), multiplier, shift)
  {
    var acc := sum;
    if bias.Bias? {
      acc := ToInt32(acc + bias.values[oc]);
    }
    acc := a.rescale(acc, multiplier, shift);
    acc := ToInt32(acc + a.outputOffset);
    if acc < a.min {
      acc := a.min;
    }
    if acc > a.max {
      acc := a.max;
    }
    r := ToInt8(acc);
  }

  /** The output is a number of the activation range, cut to a byte, and none of the range is nearer to the rescaled
      sum. When the range holds signed bytes only, nothing is cut: the output is the one nearest number. */
  lemma RequantizeNearest(a: Activation, acc: int32, multiplier: int32, shift: int32) returns (nearest: int)
    requires a.min <= a.max
    ensures a.Allows(nearest) && (Requantize(a, acc, multiplier, shift) - nearest) % TWO_8 == 0
    ensures var v := ToInt32(a.rescale(acc, multiplier, shift) + a.outputOffset);
      forall y :: a.Allows(y) && y != nearest ==> Abs(nearest - v) < Abs(y - v)
    ensures -0x80 <= a.min && a.max < 0x80 ==> Requantize(a, acc, multiplier, shift) == nearest
  {
    var v := ToInt32(a.rescale(acc, multiplier, shift) + a.outputOffset);
    nearest := if v < a.min then a.min else if v > a.max then a.max else v;
    ByteOf(nearest);
    hide ToInt32, ToInt8;
  }

  lemma ByteOf(v: int)
    ensures (ToInt8(v) - v) % TWO_8 == 0 && (-0x80 <= v < 0x80 ==> ToInt8(v) == v)
  {
  }

  /** The biased sum is the only 32-bit number that differs from accumulator plus bias by a multiple of 2^32. */
  lemma BiasedSum(bias: Bias, acc: int32, oc: nat, v: int32)
    requires bias.Covers(oc + 1)
    ensures v == bias.Added(acc, oc) <==>
      (v - acc - (if bias.Bias? then bias.values[oc] else 0)) % TWO_32 == 0
  {
  }
}
