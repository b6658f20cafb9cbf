/** The accelerated int8 convolution (integer_ops/conv.h) and the plain loop nest it stands for. */
module Conv {
  import opened Kernels
  import opened Simd
  import opened Words

  // ---------- shapes ----------

  /** A four-dimensional row-major shape. */
  datatype Shape = Shape(d0: nat, d1: nat, d2: nat, d3: nat)

  function FlatSize(s: Shape): nat {
    s.d0 * s.d1 * s.d2 * s.d3
  }

  predicate Inside(s: Shape, i0: int, i1: int, i2: int, i3: int) {
    0 <= i0 < s.d0 && 0 <= i1 < s.d1 && 0 <= i2 < s.d2 && 0 <= i3 < s.d3
  }

  /** The row-major position of an element. */
  function Offset(s: Shape, i0: int, i1: int, i2: int, i3: int): int {
    ((i0 * s.d1 + i1) * s.d2 + i2) * s.d3 + i3
  }

  /** Splitting a position by a row length is unambiguous. */
  lemma SplitUnique(m: int, q: int, r: int, q': int, r': int)
    requires 0 <= r < m && 0 <= r' < m && q * m + r == q' * m + r'
    ensures q == q' && r == r'
  {
    MulMono(m, q + 1, q');
    MulMono(m, q' + 1, q);
  }

  lemma SplitBound(m: int, q: int, r: int, n: int)
    requires 0 <= r < m && 0 <= q < n
    ensures 0 <= q * m + r < n * m
  {
    MulMono(m, 0, q);
    MulMono(m, q + 1, n);
  }

  lemma OffsetInside(s: Shape, i0: int, i1: int, i2: int, i3: int)
    requires Inside(s, i0, i1, i2, i3)
    ensures 0 <= Offset(s, i0, i1, i2, i3) < FlatSize(s)
  {
    SplitBound(s.d1, i0, i1, s.d0);
    SplitBound(s.d2, i0 * s.d1 + i1, i2, s.d0 * s.d1);
    SplitBound(s.d3, (i0 * s.d1 + i1) * s.d2 + i2, i3, s.d0 * s.d1 * s.d2);
  }

  /** Distinct elements have distinct positions. */
  lemma OffsetInjective(s: Shape, i0: int, i1: int, i2: int, i3: int, j0: int, j1: int, j2: int, j3: int)
    requires Inside(s, i0, i1, i2, i3) && Inside(s, j0, j1, j2, j3)
    requires Offset(s, i0, i1, i2, i3) == Offset(s, j0, j1, j2, j3)
    ensures i0 == j0 && i1 == j1 && i2 == j2 && i3 == j3
  {
    SplitUnique(s.d3, (i0 * s.d1 + i1) * s.d2 + i2, i3, (j0 * s.d1 + j1) * s.d2 + j2, j3);
    SplitUnique(s.d2, i0 * s.d1 + i1, i2, j0 * s.d1 + j1, j2);
    SplitUnique(s.d1, i0, i1, j0, j1);
  }

  lemma SplitExists(m: int, p: int, n: int) returns (q: int, r: int)
    requires m >= 0 && 0 <= p < n * m
    ensures 0 <= r < m && 0 <= q < n && p == q * m + r
  {
    assert m > 0;
    q, r := p / m, p % m;
    MulMono(m, n, q);
    MulMono(m, q + 1, 0);
  }

  /** Every position of the flat array belongs to an element. */
  lemma OffsetOnto(s: Shape, p: int) returns (i0: int, i1: int, i2: int, i3: int)
    requires 0 <= p < FlatSize(s)
    ensures Inside(s, i0, i1, i2, i3) && Offset(s, i0, i1, i2, i3) == p
  {
    var q, t;
    q, i3 := SplitExists(s.d3, p, s.d0 * s.d1 * s.d2);
    t, i2 := SplitExists(s.d2, q, s.d0 * s.d1);
    i0, i1 := SplitExists(s.d1, t, s.d0);
  }

  /** The kernel's hoisted per-dimension bases add up to the row-major position. */
  lemma BasesAreOffset(s: Shape, i0: int, i1: int, i2: int, i3: int)
    ensures i0 * (s.d1 * s.d2 * s.d3) + i1 * (s.d2 * s.d3) + i2 * s.d3 + i3 == Offset(s, i0, i1, i2, i3)
  {
  }

  /** The end of one row is the start of the next, in each dimension. */
  lemma OffsetCarries(s: Shape, i0: int, i1: int, i2: int)
    ensures Offset(s, i0, i1, i2, s.d3) == Offset(s, i0, i1, i2 + 1, 0)
    ensures Offset(s, i0, i1, s.d2, 0) == Offset(s, i0, i1 + 1, 0, 0)
    ensures Offset(s, i0, s.d1, 0, 0) == Offset(s, i0 + 1, 0, 0, 0)
  {
  }

  // ---------- the convolution, as a sum over taps ----------

  datatype Params = Params(strideHeight: int, strideWidth: int, dilationHeight: int, dilationWidth: int,
                           padHeight: int, padWidth: int)

  /** Shapes and data of one call, with one group: the filter is as deep as the input. */
  datatype Layer = Layer(p: Params, inShape: Shape, input: seq<int8>, filterShape: Shape, filter: seq<int8>,
                         outShape: Shape)
  {
    ghost predicate Valid() {
      && |input| == FlatSize(inShape) && |filter| == FlatSize(filterShape)
      && outShape.d0 == inShape.d0 && filterShape.d0 == outShape.d3 && filterShape.d3 == inShape.d3
      && inShape.d1 < TWO_31 && inShape.d2 < TWO_31
      && (forall oy, fy :: 0 <= oy < outShape.d1 && 0 <= fy < filterShape.d1 ==> -TWO_31 <= InY(oy, fy) < TWO_31)
      && (forall ox, fx :: 0 <= ox < outShape.d2 && 0 <= fx < filterShape.d2 ==> -TWO_31 <= InX(ox, fx) < TWO_31)
    }

    /** The input row under filter row fy for output row oy, and likewise for columns. */
    function InY(oy: int, fy: int): int { oy * p.strideHeight - p.padHeight + p.dilationHeight * fy }

    function InX(ox: int, fx: int): int { ox * p.strideWidth - p.padWidth + p.dilationWidth * fx }

    predicate InImage(iy: int, ix: int) { 0 <= iy < inShape.d1 && 0 <= ix < inShape.d2 }
  }

  /** One filter position: all channels when its pixel lies in the image, nothing otherwise. */
  function PixelSum(tap: TapFunction, l: Layer, b: int, oy: int, ox: int, oc: int, fy: int, fx: int): int
    requires l.Valid() && Inside(l.outShape, b, oy, ox, oc) && 0 <= fy < l.filterShape.d1 && 0 <= fx < l.filterShape.d2
  {
    var iy, ix := l.InY(oy, fy), l.InX(ox, fx);
    if !l.InImage(iy, ix) then 0
    else
      PixelInside(l.inShape, b, iy, ix);
      PixelInside(l.filterShape, oc, fy, fx);
      ChannelSum(tap, l.input, Offset(l.inShape, b, iy, ix, 0), l.filter, Offset(l.filterShape, oc, fy, fx, 0),
                 l.inShape.d3)
  }

  lemma PixelInside(s: Shape, i0: int, i1: int, i2: int)
    requires 0 <= i0 < s.d0 && 0 <= i1 < s.d1 && 0 <= i2 < s.d2
    ensures 0 <= Offset(s, i0, i1, i2, 0) && Offset(s, i0, i1, i2, 0) + s.d3 <= FlatSize(s)
  {
    SplitBound(s.d1, i0, i1, s.d0);
    SplitBound(s.d2, i0 * s.d1 + i1, i2, s.d0 * s.d1);
    RowInside(s.d3, (i0 * s.d1 + i1) * s.d2 + i2, s.d0 * s.d1 * s.d2);
  }

  /** The first n positions of filter row fy. */
  function RowSum(tap: TapFunction, l: Layer, b: int, oy: int, ox: int, oc: int, fy: int, n: nat): int
    requires l.Valid() && Inside(l.outShape, b, oy, ox, oc) && 0 <= fy < l.filterShape.d1 && n <= l.filterShape.d2
  {
    if n == 0 then 0
    else RowSum(tap, l, b, oy, ox, oc, fy, n - 1) + PixelSum(tap, l, b, oy, ox, oc, fy, n - 1)
  }

  /** The first n filter rows. */
  function WindowSum(tap: TapFunction, l: Layer, b: int, oy: int, ox: int, oc: int, n: nat): int
    requires l.Valid() && Inside(l.outShape, b, oy, ox, oc) && n <= l.filterShape.d1
  {
    if n == 0 then 0
    else WindowSum(tap, l, b, oy, ox, oc, n - 1) + RowSum(tap, l, b, oy, ox, oc, n - 1, l.filterShape.d2)
  }

  /** The 32-bit accumulator of an output cell before bias and rescaling. */
  function Accumulator(tap: TapFunction, l: Layer, b: int, oy: int, ox: int, oc: int): int32
    requires l.Valid() && Inside(l.outShape, b, oy, ox, oc)
  {
    ToInt32(WindowSum(tap, l, b, oy, ox, oc, l.filterShape.d1))
  }

  /** Per-channel bias and scale of a layer. */
  datatype Quantization = Quantization(bias: Bias, multiplier: seq<int32>, shift: seq<int32>, activation: Activation)
  {
    predicate Fits(depth: nat) {
      bias.Covers(depth) && |multiplier| == depth && |shift| == depth
    }
  }

  function Finish(q: Quantization, acc: int32, oc: int): int8
    requires 0 <= oc < |q.multiplier| && q.Fits(|q.multiplier|)
  {
    Requantize(q.activation, q.bias.Added(acc, oc), q.multiplier[oc], q.shift[oc])
  }

  function Cell(tap: TapFunction, l: Layer, q: Quantization, b: int, oy: int, ox: int, oc: int): int8
    requires l.Valid() && q.Fits(l.outShape.d3) && Inside(l.outShape, b, oy, ox, oc)
  {
    Finish(q, Accumulator(tap, l, b, oy, ox, oc), oc)
  }

  // ---------- the accelerated kernel ----------

  function DeviceTap(offset: int): TapFunction {
    (x: int8, f: int8) => Tap(offset, x, f)
  }

  /** The unsigned comparison trick. */
  predicate IsInRange(a: int32, b: int32) {
    ToUint32(a) < ToUint32(b)
  }

  lemma UnsignedTrick(a: int32, b: int32)
    requires b >= 0
    ensures IsInRange(a, b) <==> 0 <= a < b
  {
  }

  /** Four channels at a time, then the rest as one zero-filled word. */
  method AddPixel(dev: SimdUnit, input: seq<int8>, i: int, filter: seq<int8>, j: int, depth: nat, start: int32)
    returns (acc: int32)
    requires dev.Valid() && dev.sum == start
    requires 0 <= i && i + depth <= |input| && 0 <= j && j + depth <= |filter|
    modifies dev
    ensures dev.Valid() && dev.offset == old(dev.offset) && acc == dev.sum
    ensures acc == ToInt32(start + ChannelSum(DeviceTap(dev.offset), input, i, filter, j, depth))
  {
    hide Pack, LaneSum, Tap, PackRest, DeviceTap, ToInt32;
    acc := start;
    ghost var tap := DeviceTap(dev.offset);
    var normal := depth - depth % 4;
    var rest := depth - normal;
    var c := 0;
    WrapIdentity(start);
    while c < normal
      invariant 0 <= c <= normal && c % 4 == 0
      invariant dev.Valid() && dev.offset == old(dev.offset) && acc == dev.sum
      invariant acc == ToInt32(start + ChannelSum(tap, input, i, filter, j, c))
    {
      var x := Pack(input[i + c], input[i + c + 1], input[i + c + 2], input[i + c + 3]);
      var f := Pack(filter[j + c], filter[j + c + 1], filter[j + c + 2], filter[j + c + 3]);
      acc := dev.MultiplyAdd(x, f);
      FourChannels(dev.offset, input, i, filter, j, c);
      WrapSplit(start, ChannelSum(tap, input, i, filter, j, c), LaneSum(dev.offset, x, f));
      c := c + 4;
    }
    if rest > 0 {
      acc := AddRest(dev, input, i, filter, j, normal, rest, start);
    }
  }

  /** The channels after the last full word. */
  method AddRest(dev: SimdUnit, input: seq<int8>, i: int, filter: seq<int8>, j: int, normal: nat, rest: nat,
                 ghost start: int32) returns (acc: int32)
    requires dev.Valid() && 0 < rest < 4
    requires 0 <= i && i + normal + rest <= |input| && 0 <= j && j + normal + rest <= |filter|
    requires dev.sum == ToInt32(start + ChannelSum(DeviceTap(dev.offset), input, i, filter, j, normal))
    modifies dev
    ensures dev.Valid() && dev.offset == old(dev.offset) && acc == dev.sum
    ensures acc == ToInt32(start + ChannelSum(DeviceTap(dev.offset), input, i, filter, j, normal + rest))
  {
    hide Pack, LaneSum, Tap, PackRest, DeviceTap, ToInt32, ChannelSum;
    var x, f := PackRemaining(input, i + normal, filter, j + normal, rest);
    acc := dev.MultiplyAdd(x, f);
    RestChannels(dev.offset, input, i, filter, j, normal, rest);
    WrapSplit(start, ChannelSum(DeviceTap(dev.offset), input, i, filter, j, normal), LaneSum(dev.offset, x, f));
  }

  /** The partial last words of input and filter. */
  method PackRemaining(input: seq<int8>, i: int, filter: seq<int8>, j: int, rest: nat) returns (x: uint32, f: uint32)
    requires 0 < rest < 4 && 0 <= i && i + rest <= |input| && 0 <= j && j + rest <= |filter|
    ensures x == PackRest(input[i..i + rest]) && f == PackRest(filter[j..j + rest])
  {
    hide Bits;
    x, f := 0, 0;
    var d := 0;
    while d < rest
      invariant 0 <= d <= rest
      invariant x == PackRest(input[i..i + d]) && f == PackRest(filter[j..j + d])
    {
      PackRestStep(input, i, d);
      PackRestStep(filter, j, d);
      x := x * 0x100 + Bits(input[i + d]);
      f := f * 0x100 + Bits(filter[j + d]);
      d := d + 1;
    }
  }

  /** The last one to three bytes shifted into a word, the first ending up highest. */
  function PackRest(bytes: seq<int8>): (w: uint32)
    requires |bytes| < 4
    ensures |bytes| <= 1 ==> w < 0x100
    ensures |bytes| <= 2 ==> w < 0x1_0000
    ensures w < 0x100_0000
  {
    if bytes == [] then 0 else PackRest(bytes[..|bytes| - 1]) * 0x100 + Bits(bytes[|bytes| - 1])
  }

  lemma PackRestStep(bytes: seq<int8>, i: nat, d: nat)
    requires d < 3 && i + d < |bytes|
    ensures PackRest(bytes[i..i + d + 1]) == PackRest(bytes[i..i + d]) * 0x100 + Bits(bytes[i + d])
  {
    assert bytes[i..i + d + 1][..d] == bytes[i..i + d];
  }

  /** Shifting bytes in from the right packs them in reverse, with zero lanes above. */
  lemma {:induction false} PackRestIsPack(bytes: seq<int8>)
    requires 0 < |bytes| < 4
    ensures |bytes| == 1 ==> PackRest(bytes) == Pack(bytes[0], 0, 0, 0)
    ensures |bytes| == 2 ==> PackRest(bytes) == Pack(bytes[1], bytes[0], 0, 0)
    ensures |bytes| == 3 ==> PackRest(bytes) == Pack(bytes[2], bytes[1], bytes[0], 0)
  {
    if |bytes| > 1 {
      PackRestIsPack(bytes[..|bytes| - 1]);
    }
  }

  lemma FourChannels(offset: int, input: seq<int8>, i: int, filter: seq<int8>, j: int, c: nat)
    requires 0 <= i && i + c + 4 <= |input| && 0 <= j && j + c + 4 <= |filter|
    ensures ChannelSum(DeviceTap(offset), input, i, filter, j, c + 4)
         == ChannelSum(DeviceTap(offset), input, i, filter, j, c)
            + LaneSum(offset, Pack(input[i + c], input[i + c + 1], input[i + c + 2], input[i + c + 3]),
                              Pack(filter[j + c], filter[j + c + 1], filter[j + c + 2], filter[j + c + 3]))
  {
    hide Pack, LaneSum, Tap;
    var tap := DeviceTap(offset);
    PackedSum(offset, input[i + c], input[i + c + 1], input[i + c + 2], input[i + c + 3],
              filter[j + c], filter[j + c + 1], filter[j + c + 2], filter[j + c + 3]);
    assert ChannelSum(tap, input, i, filter, j, c + 2)
        == ChannelSum(tap, input, i, filter, j, c) + tap(input[i + c], filter[j + c])
           + tap(input[i + c + 1], filter[j + c + 1]);
  }

  lemma RestChannels(offset: int, input: seq<int8>, i: int, filter: seq<int8>, j: int, c: nat, rest: nat)
    requires 0 < rest < 4
    requires 0 <= i && i + c + rest <= |input| && 0 <= j && j + c + rest <= |filter|
    ensures ChannelSum(DeviceTap(offset), input, i, filter, j, c + rest)
         == ChannelSum(DeviceTap(offset), input, i, filter, j, c)
            + LaneSum(offset, PackRest(input[i + c..i + c + rest]), PackRest(filter[j + c..j + c + rest]))
  {
    hide Pack, LaneSum, Tap, PackRest;
    var tap := DeviceTap(offset);
    var xs, fs := input[i + c..i + c + rest], filter[j + c..j + c + rest];
    PackRestIsPack(xs);
    PackRestIsPack(fs);
    ZeroLane(offset);
    if rest == 1 {
      PackedSum(offset, xs[0], 0, 0, 0, fs[0], 0, 0, 0);
    } else if rest == 2 {
      PackedSum(offset, xs[1], xs[0], 0, 0, fs[1], fs[0], 0, 0);
      assert ChannelSum(tap, input, i, filter, j, c + 2)
          == ChannelSum(tap, input, i, filter, j, c) + tap(xs[0], fs[0]) + tap(xs[1], fs[1]);
    } else {
      PackedSum(offset, xs[2], xs[1], xs[0], 0, fs[2], fs[1], fs[0], 0);
      assert ChannelSum(tap, input, i, filter, j, c + 2)
          == ChannelSum(tap, input, i, filter, j, c) + tap(xs[0], fs[0]) + tap(xs[1], fs[1]);
    }
  }

  lemma WrapSplit(start: int32, sum: int, more: int)
    ensures ToInt32(ToInt32(start + sum) + more) == ToInt32(start + (sum + more))
  {
  }

  lemma WrapIdentity(v: int32)
    ensures ToInt32(v) == v
  {
  }

  lemma PixelUnder(l: Layer, oy: int, ox: int, fy: int, fx: int)
    ensures l.InY(oy, fy) == oy * l.p.strideHeight - l.p.padHeight + l.p.dilationHeight * fy
    ensures l.InX(ox, fx) == ox * l.p.strideWidth - l.p.padWidth + l.p.dilationWidth * fx
  {
  }

  /** All filter positions of one output cell, from a cleared sum. */
  method AddWindow(dev: SimdUnit, l: Layer, b: int, oy: int, ox: int, oc: int) returns (acc: int32)
    requires dev.Valid() && l.Valid() && Inside(l.outShape, b, oy, ox, oc)
    modifies dev
    ensures dev.Valid() && dev.offset == old(dev.offset)
    ensures acc == Accumulator(DeviceTap(dev.offset), l, b, oy, ox, oc)
  {
    hide Tap, Offset, FlatSize, PixelSum, ChannelSum, Layer.InY, Layer.InX;
    ghost var tap := DeviceTap(dev.offset);
    acc := dev.Clear();
    var yOrigin := oy * l.p.strideHeight - l.p.padHeight;
    var fy := 0;
    while fy < l.filterShape.d1
      invariant 0 <= fy <= l.filterShape.d1
      invariant dev.Valid() && dev.offset == old(dev.offset) && acc == dev.sum
      invariant acc == ToInt32(WindowSum(tap, l, b, oy, ox, oc, fy))
    {
      var iy := yOrigin + l.p.dilationHeight * fy;
      PixelUnder(l, oy, 0, fy, 0);
      UnsignedTrick(iy, l.inShape.d1);
      ghost var before := WindowSum(tap, l, b, oy, ox, oc, fy);
      if IsInRange(iy, l.inShape.d1) {
        var fx := 0;
        while fx < l.filterShape.d2
          invariant 0 <= fx <= l.filterShape.d2
          invariant dev.Valid() && dev.offset == old(dev.offset) && acc == dev.sum
          invariant acc == ToInt32(before + RowSum(tap, l, b, oy, ox, oc, fy, fx))
        {
          acc := AddPosition(dev, l, b, oy, ox, oc, fy, fx, iy, acc);
          WrapAbsorbs(before + RowSum(tap, l, b, oy, ox, oc, fy, fx), PixelSum(tap, l, b, oy, ox, oc, fy, fx));
          fx := fx + 1;
        }
      } else {
        RowOutside(tap, l, b, oy, ox, oc, fy, l.filterShape.d2);
      }
      fy := fy + 1;
    }
  }

  /** One filter position of one output cell. */
  method AddPosition(dev: SimdUnit, l: Layer, b: int, oy: int, ox: int, oc: int, fy: int, fx: int, iy: int32,
                     start: int32)
    returns (acc: int32)
    requires dev.Valid() && dev.sum == start
    requires l.Valid() && Inside(l.outShape, b, oy, ox, oc) && 0 <= fy < l.filterShape.d1 && 0 <= fx < l.filterShape.d2
    requires iy == l.InY(oy, fy) && 0 <= iy < l.inShape.d1
    modifies dev
    ensures dev.Valid() && dev.offset == old(dev.offset) && acc == dev.sum
    ensures acc == ToInt32(start + PixelSum(DeviceTap(dev.offset), l, b, oy, ox, oc, fy, fx))
  {
    PixelUnder(l, oy, ox, fy, fx);
    hide Tap, ChannelSum, Offset, FlatSize, Layer.InY, Layer.InX;
    var xOrigin := ox * l.p.strideWidth - l.p.padWidth;
    var ix := xOrigin + l.p.dilationWidth * fx;
    UnsignedTrick(ix, l.inShape.d2);
    WrapIdentity(start);
    if IsInRange(ix, l.inShape.d2) {
      acc := AddPixelAt(dev, l, b, iy, ix, oc, fy, fx, start);
    } else {
      acc := start;
    }
  }

  /** The channels of one pixel against those of one filter position, found from the hoisted bases. */
  method AddPixelAt(dev: SimdUnit, l: Layer, b: int, iy: int, ix: int, oc: int, fy: int, fx: int, start: int32)
    returns (acc: int32)
    requires dev.Valid() && dev.sum == start && l.Valid() && l.InImage(iy, ix)
    requires 0 <= b < l.inShape.d0 && 0 <= oc < l.filterShape.d0
    requires 0 <= fy < l.filterShape.d1 && 0 <= fx < l.filterShape.d2
    modifies dev
    ensures dev.Valid() && dev.offset == old(dev.offset) && acc == dev.sum
    ensures var i, j := Offset(l.inShape, b, iy, ix, 0), Offset(l.filterShape, oc, fy, fx, 0);
      && 0 <= i && i + l.inShape.d3 <= |l.input| && 0 <= j && j + l.inShape.d3 <= |l.filter|
      && acc == ToInt32(start + ChannelSum(DeviceTap(dev.offset), l.input, i, l.filter, j, l.inShape.d3))
  {
    var s, t := l.inShape, l.filterShape;
    var inputBase := b * (s.d1 * s.d2 * s.d3) + iy * (s.d2 * s.d3) + ix * s.d3;
    var filterBase := oc * (t.d1 * t.d2 * t.d3) + fy * (t.d2 * t.d3) + fx * t.d3;
    BasesAreOffset(s, b, iy, ix, 0);
    BasesAreOffset(t, oc, fy, fx, 0);
    PixelInside(s, b, iy, ix);
    PixelInside(t, oc, fy, fx);
    hide Tap, ChannelSum, Offset, FlatSize, Layer.InY, Layer.InX;
    acc := AddPixel(dev, l.input, inputBase, l.filter, filterBase, s.d3, start);
  }

  lemma {:induction false} RowOutside(tap: TapFunction, l: Layer, b: int, oy: int, ox: int, oc: int, fy: int, n: nat)
    requires l.Valid() && Inside(l.outShape, b, oy, ox, oc) && 0 <= fy < l.filterShape.d1 && n <= l.filterShape.d2
    requires !(0 <= l.InY(oy, fy) < l.inShape.d1)
    ensures RowSum(tap, l, b, oy, ox, oc, fy, n) == 0
  {
    if n > 0 {
      RowOutside(tap, l, b, oy, ox, oc, fy, n - 1);
    }
  }

  /** The output positions below pos hold their cells. */
  ghost predicate Filled(tap: TapFunction, l: Layer, q: Quantization, out: seq<int8>, pos: int)
    requires l.Valid() && q.Fits(l.outShape.d3)
  {
    && |out| == FlatSize(l.outShape)
    && forall b, oy, ox, oc :: Inside(l.outShape, b, oy, ox, oc) && 0 <= Offset(l.outShape, b, oy, ox, oc) < |out|
         && Offset(l.outShape, b, oy, ox, oc) < pos
         ==> out[Offset(l.outShape, b, oy, ox, oc)] == Cell(tap, l, q, b, oy, ox, oc)
  }

  lemma FillStep(tap: TapFunction, l: Layer, q: Quantization, out: seq<int8>, b: int, oy: int, ox: int, oc: int)
    requires l.Valid() && q.Fits(l.outShape.d3) && Inside(l.outShape, b, oy, ox, oc)
    requires Filled(tap, l, q, out, Offset(l.outShape, b, oy, ox, oc))
    ensures 0 <= Offset(l.outShape, b, oy, ox, oc) < |out|
    ensures Filled(tap, l, q, out[Offset(l.outShape, b, oy, ox, oc) := Cell(tap, l, q, b, oy, ox, oc)],
                   Offset(l.outShape, b, oy, ox, oc) + 1)
  {
    hide Offset, FlatSize, Cell, Layer.Valid, Quantization.Fits;
    var s := l.outShape;
    OffsetInside(s, b, oy, ox, oc);
    forall b', oy', ox', oc' |
      Inside(s, b', oy', ox', oc') && Offset(s, b', oy', ox', oc') == Offset(s, b, oy, ox, oc)
      ensures b' == b && oy' == oy && ox' == ox && oc' == oc
    {
      OffsetInjective(s, b', oy', ox', oc', b, oy, ox, oc);
    }
  }

  /** The int8 convolution kernel. Every output cell is the requantised accumulator of its own window. */
  method ConvPerChannel(dev: SimdUnit, l: Layer, q: Quantization, inputOffset: int32, output: array<int8>)
    requires dev.Valid() && l.Valid() && q.Fits(l.outShape.d3) && output.Length == FlatSize(l.outShape)
    modifies dev, output
    ensures forall b, oy, ox, oc :: Inside(l.outShape, b, oy, ox, oc) ==>
      0 <= Offset(l.outShape, b, oy, ox, oc) < output.Length
    ensures forall b, oy, ox, oc :: Inside(l.outShape, b, oy, ox, oc) ==>
      output[Offset(l.outShape, b, oy, ox, oc)] == Cell(DeviceTap(ToInt9(inputOffset)), l, q, b, oy, ox, oc)
    ensures -127 <= inputOffset <= 129 ==> forall b, oy, ox, oc :: Inside(l.outShape, b, oy, ox, oc) ==>
      output[Offset(l.outShape, b, oy, ox, oc)] == Cell(ExactTap(inputOffset), l, q, b, oy, ox, oc)
  {
    hide Offset, FlatSize, Cell, Layer.Valid, Quantization.Fits;
    dev.SetOffset(ToUint32(inputOffset) % 0x200);
    MaskedOffset(inputOffset);
    ghost var tap := DeviceTap(ToInt9(inputOffset));
    var s := l.outShape;
    OffsetOrigin(s);
    assert Filled(tap, l, q, output[..], Offset(s, 0, 0, 0, 0)) by { NothingFilled(tap, l, q, output[..]); }
    var b := 0;
    while b < s.d0
      invariant 0 <= b <= s.d0 && dev.Valid() && dev.offset == ToInt9(inputOffset)
      invariant Filled(tap, l, q, output[..], Offset(s, b, 0, 0, 0))
    {
      var oy := 0;
      while oy < s.d1
        invariant 0 <= oy <= s.d1 && dev.Valid() && dev.offset == ToInt9(inputOffset)
        invariant Filled(tap, l, q, output[..], Offset(s, b, oy, 0, 0))
      {
        ConvRow(dev, l, q, output, b, oy);
        OffsetCarries(s, b, oy, 0);
        oy := oy + 1;
      }
      OffsetCarries(s, b, 0, 0);
      b := b + 1;
    }
    AllFilled(tap, l, q, output[..]);
    if -127 <= inputOffset <= 129 {
      forall b, oy, ox, oc | Inside(l.outShape, b, oy, ox, oc)
        ensures Cell(tap, l, q, b, oy, ox, oc) == Cell(ExactTap(inputOffset), l, q, b, oy, ox, oc)
      {
        KernelMatchesReference(inputOffset, l, q, b, oy, ox, oc);
      }
    }
  }

  /** One row of the output image. */
  method ConvRow(dev: SimdUnit, l: Layer, q: Quantization, output: array<int8>, b: int, oy: int)
    requires dev.Valid() && l.Valid() && q.Fits(l.outShape.d3)
    requires 0 <= b < l.outShape.d0 && 0 <= oy < l.outShape.d1
    requires Filled(DeviceTap(dev.offset), l, q, output[..], Offset(l.outShape, b, oy, 0, 0))
    modifies dev, output
    ensures dev.Valid() && dev.offset == old(dev.offset)
    ensures Filled(DeviceTap(dev.offset), l, q, output[..], Offset(l.outShape, b, oy + 1, 0, 0))
  {
    hide Offset, FlatSize, Layer.Valid, Filled, Accumulator, Finish, Tap, DeviceTap;
    ghost var tap := DeviceTap(dev.offset);
    var s := l.outShape;
    var ox := 0;
    while ox < s.d2
      invariant 0 <= ox <= s.d2 && dev.Valid() && dev.offset == old(dev.offset)
      invariant Filled(tap, l, q, output[..], Offset(s, b, oy, ox, 0))
    {
      var oc := 0;
      while oc < s.d3
        invariant 0 <= oc <= s.d3 && dev.Valid() && dev.offset == old(dev.offset)
        invariant Filled(tap, l, q, output[..], Offset(s, b, oy, ox, oc))
      {
        var acc := AddWindow(dev, l, b, oy, ox, oc);
        FillStep(tap, l, q, output[..], b, oy, ox, oc);
        BasesAreOffset(s, b, oy, ox, oc);
        NextChannel(s, b, oy, ox, oc);
        var position := b * (s.d1 * s.d2 * s.d3) + oy * (s.d2 * s.d3) + ox * s.d3 + oc;
        ghost var before := output[..];
        var value := FinishCell(q, acc, oc);
        output[position] := value;
        assert output[..] == before[position := value];
        oc := oc + 1;
      }
      OffsetCarries(s, b, oy, ox);
      ox := ox + 1;
    }
    OffsetCarries(s, b, oy, 0);
  }

  method FinishCell(q: Quantization, acc: int32, oc: nat) returns (value: int8)
    requires oc < |q.multiplier| && q.Fits(|q.multiplier|)
    ensures value == Finish(q, acc, oc)
  {
    value := FinishSum(q.activation, q.bias, oc, acc, q.multiplier[oc], q.shift[oc]);
  }

  lemma NextChannel(s: Shape, i0: int, i1: int, i2: int, i3: int)
    ensures Offset(s, i0, i1, i2, i3 + 1) == Offset(s, i0, i1, i2, i3) + 1
  {
  }

  lemma OffsetOrigin(s: Shape)
    ensures Offset(s, 0, 0, 0, 0) == 0 && Offset(s, s.d0, 0, 0, 0) == FlatSize(s)
  {
  }

  lemma NothingFilled(tap: TapFunction, l: Layer, q: Quantization, out: seq<int8>)
    requires l.Valid() && q.Fits(l.outShape.d3) && |out| == FlatSize(l.outShape)
    ensures Filled(tap, l, q, out, 0)
  {
  }

  lemma AllFilled(tap: TapFunction, l: Layer, q: Quantization, out: seq<int8>)
    requires l.Valid() && q.Fits(l.outShape.d3) && Filled(tap, l, q, out, Offset(l.outShape, l.outShape.d0, 0, 0, 0))
    ensures forall b, oy, ox, oc :: Inside(l.outShape, b, oy, ox, oc) ==>
      0 <= Offset(l.outShape, b, oy, ox, oc) < |out|
      && out[Offset(l.outShape, b, oy, ox, oc)] == Cell(tap, l, q, b, oy, ox, oc)
  {
    hide Offset, FlatSize, Cell, Layer.Valid, Quantization.Fits;
    OffsetOrigin(l.outShape);
    forall b, oy, ox, oc | Inside(l.outShape, b, oy, ox, oc)
      ensures 0 <= Offset(l.outShape, b, oy, ox, oc) < |out|
    {
      OffsetInside(l.outShape, b, oy, ox, oc);
    }
  }

  /** The nine bits sent to the device decode to the offset's own low nine bits. */
  lemma MaskedOffset(offset: int32)
    ensures ToInt9(ToUint32(offset) % 0x200) == ToInt9(offset)
  {
    var u := ToUint32(offset);
    NineBitShift(u % 0x200, u / 0x200);
    NineBitShift(offset, if offset < 0 then 0x80_0000 else 0);
  }

  lemma NineBitShift(v: int, q: int)
    ensures ToInt9(v + 0x200 * q) == ToInt9(v)
  {
  }

  // ---------- the plain loop nest ----------

  /** All taps of one output cell, one by one, in a sum that wraps after every term. */
  method ReferenceWindow(l: Layer, offset: int32, b: int, oy: int, ox: int, oc: int) returns (acc: int32)
    requires l.Valid() && Inside(l.outShape, b, oy, ox, oc)
    ensures acc == Accumulator(ExactTap(offset), l, b, oy, ox, oc)
  {
    hide ToInt32, PixelSum, Layer.Valid;
    ghost var tap := ExactTap(offset);
    acc := 0;
    WrapIdentity(0);
    for fy := 0 to l.filterShape.d1
      invariant acc == ToInt32(WindowSum(tap, l, b, oy, ox, oc, fy))
    {
      ghost var before := WindowSum(tap, l, b, oy, ox, oc, fy);
      for fx := 0 to l.filterShape.d2
        invariant acc == ToInt32(before + RowSum(tap, l, b, oy, ox, oc, fy, fx))
      {
        acc := ReferencePosition(l, offset, b, oy, ox, oc, fy, fx, acc);
        WrapAbsorbs(before + RowSum(tap, l, b, oy, ox, oc, fy, fx), PixelSum(tap, l, b, oy, ox, oc, fy, fx));
      }
    }
  }

  method ReferencePosition(l: Layer, offset: int32, b: int, oy: int, ox: int, oc: int, fy: int, fx: int, start: int32)
    returns (acc: int32)
    requires l.Valid() && Inside(l.outShape, b, oy, ox, oc) && 0 <= fy < l.filterShape.d1 && 0 <= fx < l.filterShape.d2
    ensures acc == ToInt32(start + PixelSum(ExactTap(offset), l, b, oy, ox, oc, fy, fx))
  {
    hide ToInt32, Offset, FlatSize, ChannelSum;
    var s, t := l.inShape, l.filterShape;
    var iy := (oy * l.p.strideHeight - l.p.padHeight) + l.p.dilationHeight * fy;
    var ix := (ox * l.p.strideWidth - l.p.padWidth) + l.p.dilationWidth * fx;
    WrapIdentity(start);
    if !(0 <= ix < s.d2 && 0 <= iy < s.d1) {
      return start;
    }
    PixelInside(s, b, iy, ix);
    PixelInside(t, oc, fy, fx);
    acc := ReferenceChannels(l.input, Offset(s, b, iy, ix, 0), l.filter, Offset(t, oc, fy, fx, 0), s.d3, offset, start);
  }

  method ReferenceChannels(input: seq<int8>, i: int, filter: seq<int8>, j: int, depth: nat, offset: int32, start: int32)
    returns (acc: int32)
    requires 0 <= i && i + depth <= |input| && 0 <= j && j + depth <= |filter|
    ensures acc == ToInt32(start + ChannelSum(ExactTap(offset), input, i, filter, j, depth))
  {
    hide ToInt32;
    acc := start;
    WrapIdentity(start);
    for c := 0 to depth
      invariant acc == ToInt32(start + ChannelSum(ExactTap(offset), input, i, filter, j, c))
    {
      var term := (input[i + c] + offset) * filter[j + c];
      ghost var before := ChannelSum(ExactTap(offset), input, i, filter, j, c);
      assert ChannelSum(ExactTap(offset), input, i, filter, j, c + 1) == before + term;
      WrapAbsorbs(start + before, term);
      acc := ToInt32(acc + term);
    }
  }

  // ---------- the kernel against exact arithmetic ----------

  ghost predicate SameTaps(t: TapFunction, u: TapFunction) {
    forall x: int8, f: int8 :: t(x, f) == u(x, f)
  }

  lemma {:induction false} SameChannelSum(t: TapFunction, u: TapFunction, input: seq<int8>, i: int, filter: seq<int8>,
                                          j: int, n: nat)
    requires SameTaps(t, u) && 0 <= i && i + n <= |input| && 0 <= j && j + n <= |filter|
    ensures ChannelSum(t, input, i, filter, j, n) == ChannelSum(u, input, i, filter, j, n)
  {
    if n > 0 {
      SameChannelSum(t, u, input, i, filter, j, n - 1);
    }
  }

  lemma SamePixelSum(t: TapFunction, u: TapFunction, l: Layer, b: int, oy: int, ox: int, oc: int, fy: int, fx: int)
    requires l.Valid() && Inside(l.outShape, b, oy, ox, oc) && 0 <= fy < l.filterShape.d1 && 0 <= fx < l.filterShape.d2
    requires SameTaps(t, u)
    ensures PixelSum(t, l, b, oy, ox, oc, fy, fx) == PixelSum(u, l, b, oy, ox, oc, fy, fx)
  {
    hide Offset, FlatSize, ChannelSum;
    var iy, ix := l.InY(oy, fy), l.InX(ox, fx);
    if l.InImage(iy, ix) {
      PixelInside(l.inShape, b, iy, ix);
      PixelInside(l.filterShape, oc, fy, fx);
      SameChannelSum(t, u, l.input, Offset(l.inShape, b, iy, ix, 0), l.filter, Offset(l.filterShape, oc, fy, fx, 0),
                     l.inShape.d3);
    }
  }

  lemma {:induction false} SameRowSum(t: TapFunction, u: TapFunction, l: Layer, b: int, oy: int, ox: int, oc: int,
                                      fy: int, n: nat)
    requires l.Valid() && Inside(l.outShape, b, oy, ox, oc) && 0 <= fy < l.filterShape.d1 && n <= l.filterShape.d2
    requires SameTaps(t, u)
    ensures RowSum(t, l, b, oy, ox, oc, fy, n) == RowSum(u, l, b, oy, ox, oc, fy, n)
  {
    hide PixelSum;
    if n > 0 {
      SameRowSum(t, u, l, b, oy, ox, oc, fy, n - 1);
      SamePixelSum(t, u, l, b, oy, ox, oc, fy, n - 1);
    }
  }

  lemma {:induction false} SameWindowSum(t: TapFunction, u: TapFunction, l: Layer, b: int, oy: int, ox: int, oc: int,
                                         n: nat)
    requires l.Valid() && Inside(l.outShape, b, oy, ox, oc) && n <= l.filterShape.d1
    requires SameTaps(t, u)
    ensures WindowSum(t, l, b, oy, ox, oc, n) == WindowSum(u, l, b, oy, ox, oc, n)
  {
    hide RowSum;
    if n > 0 {
      SameWindowSum(t, u, l, b, oy, ox, oc, n - 1);
      SameRowSum(t, u, l, b, oy, ox, oc, n - 1, l.filterShape.d2);
    }
  }

  /** For every offset from -127 to 129 the accelerated kernel computes the reference output, on every layer. */
  lemma KernelMatchesReference(offset: int32, l: Layer, q: Quantization, b: int, oy: int, ox: int, oc: int)
    requires -127 <= offset <= 129
    requires l.Valid() && q.Fits(l.outShape.d3) && Inside(l.outShape, b, oy, ox, oc)
    ensures Accumulator(DeviceTap(ToInt9(offset)), l, b, oy, ox, oc) == Accumulator(ExactTap(offset), l, b, oy, ox, oc)
    ensures Cell(DeviceTap(ToInt9(offset)), l, q, b, oy, ox, oc) == Cell(ExactTap(offset), l, q, b, oy, ox, oc)
  {
    hide WindowSum, Tap, ToInt9, Finish;
    TapExactIff(offset);
    SameWindowSum(DeviceTap(ToInt9(offset)), ExactTap(offset), l, b, oy, ox, oc, l.filterShape.d1);
  }

  ghost predicate MatchesOn(offset: int32, l: Layer) {
    l.Valid() ==> forall b, oy, ox, oc :: Inside(l.outShape, b, oy, ox, oc) ==>
      Accumulator(DeviceTap(ToInt9(offset)), l, b, oy, ox, oc) == Accumulator(ExactTap(offset), l, b, oy, ox, oc)
  }

  /** The accumulators are right on all layers exactly for the offsets from -127 to 129. */
  lemma KernelExactIff(offset: int32)
    ensures (forall l: Layer :: MatchesOn(offset, l)) <==> -127 <= offset <= 129
  {
    hide Accumulator;
    if -127 <= offset <= 129 {
      forall l: Layer ensures MatchesOn(offset, l) {
        if l.Valid() {
          var q := AnyQuantization(l.outShape.d3);
          forall b, oy, ox, oc | Inside(l.outShape, b, oy, ox, oc)
            ensures Accumulator(DeviceTap(ToInt9(offset)), l, b, oy, ox, oc)
                 == Accumulator(ExactTap(offset), l, b, oy, ox, oc)
          {
            KernelMatchesReference(offset, l, q, b, oy, ox, oc);
          }
        }
      }
    } else {
      var x, f := InexactTap(offset);
      var l := OnePixel(x, f);
      OnePixelAccumulator(DeviceTap(ToInt9(offset)), x, f);
      OnePixelAccumulator(ExactTap(offset), x, f);
      assert Inside(l.outShape, 0, 0, 0, 0);
      assert !MatchesOn(offset, l);
    }
  }

  function AnyQuantization(depth: nat): (q: Quantization)
    ensures q.Fits(depth)
  {
    var zeros := seq(depth, _ => 0);
    Quantization(NoBias, zeros, zeros, Activation(0, -0x80, 0x7F, (acc: int32, m: int32, s: int32) => acc))
  }

  /** A layer with a single tap. */
  function OnePixel(x: int8, f: int8): Layer {
    var one := Shape(1, 1, 1, 1);
    Layer(Params(1, 1, 1, 1, 0, 0), one, [x], one, [f], one)
  }

  lemma OnePixelAccumulator(tap: TapFunction, x: int8, f: int8)
    ensures OnePixel(x, f).Valid() && Inside(OnePixel(x, f).outShape, 0, 0, 0, 0)
    ensures Accumulator(tap, OnePixel(x, f), 0, 0, 0, 0) == ToInt32(tap(x, f))
  {
    var l := OnePixel(x, f);
    assert l.Valid();
    assert PixelSum(tap, l, 0, 0, 0, 0, 0, 0) == tap(x, f) by {
      assert ChannelSum(tap, [x], 0, [f], 0, 1) == ChannelSum(tap, [x], 0, [f], 0, 0) + tap(x, f);
    }
    assert RowSum(tap, l, 0, 0, 0, 0, 0, 1) == RowSum(tap, l, 0, 0, 0, 0, 0, 0) + PixelSum(tap, l, 0, 0, 0, 0, 0, 0);
    assert WindowSum(tap, l, 0, 0, 0, 0, 1) == WindowSum(tap, l, 0, 0, 0, 0, 0) + RowSum(tap, l, 0, 0, 0, 0, 0, 1);
  }

  // ---------- the size of the sum ----------

  ghost predicate TapsWithin(tap: TapFunction, m: nat) {
    forall x: int8, f: int8 :: tap(x, f) <= m && 0 <= tap(x, f) + m
  }

  lemma {:induction false} ChannelSumBound(tap: TapFunction, m: nat, input: seq<int8>, i: int, filter: seq<int8>,
                                           j: int, n: nat)
    requires TapsWithin(tap, m) && 0 <= i && i + n <= |input| && 0 <= j && j + n <= |filter|
    ensures -(m * n) <= ChannelSum(tap, input, i, filter, j, n) <= m * n
  {
    if n > 0 {
      ChannelSumBound(tap, m, input, i, filter, j, n - 1);
      assert m * n == m * (n - 1) + m;
    }
  }

  lemma PixelSumBound(tap: TapFunction, m: nat, l: Layer, b: int, oy: int, ox: int, oc: int, fy: int, fx: int)
    requires l.Valid() && Inside(l.outShape, b, oy, ox, oc) && 0 <= fy < l.filterShape.d1 && 0 <= fx < l.filterShape.d2
    requires TapsWithin(tap, m)
    ensures -(m * l.inShape.d3) <= PixelSum(tap, l, b, oy, ox, oc, fy, fx) <= m * l.inShape.d3
  {
    hide Offset, FlatSize, ChannelSum;
    var iy, ix := l.InY(oy, fy), l.InX(ox, fx);
    if l.InImage(iy, ix) {
      PixelInside(l.inShape, b, iy, ix);
      PixelInside(l.filterShape, oc, fy, fx);
      ChannelSumBound(tap, m, l.input, Offset(l.inShape, b, iy, ix, 0), l.filter, Offset(l.filterShape, oc, fy, fx, 0),
                      l.inShape.d3);
    }
  }

  lemma {:induction false} RowSumBound(tap: TapFunction, m: nat, l: Layer, b: int, oy: int, ox: int, oc: int, fy: int,
                                       n: nat)
    requires l.Valid() && Inside(l.outShape, b, oy, ox, oc) && 0 <= fy < l.filterShape.d1 && n <= l.filterShape.d2
    requires TapsWithin(tap, m)
    ensures -(m * l.inShape.d3 * n) <= RowSum(tap, l, b, oy, ox, oc, fy, n) <= m * l.inShape.d3 * n
  {
    hide PixelSum;
    if n > 0 {
      RowSumBound(tap, m, l, b, oy, ox, oc, fy, n - 1);
      PixelSumBound(tap, m, l, b, oy, ox, oc, fy, n - 1);
      assert m * l.inShape.d3 * n == m * l.inShape.d3 * (n - 1) + m * l.inShape.d3;
    }
  }

  lemma {:induction false} WindowSumBound(tap: TapFunction, m: nat, l: Layer, b: int, oy: int, ox: int, oc: int, n: nat)
    requires l.Valid() && Inside(l.outShape, b, oy, ox, oc) && n <= l.filterShape.d1
    requires TapsWithin(tap, m)
    ensures var row: int := m * l.inShape.d3 * l.filterShape.d2;
      -(row * n) <= WindowSum(tap, l, b, oy, ox, oc, n) <= row * n
  {
    hide RowSum;
    if n > 0 {
      WindowSumBound(tap, m, l, b, oy, ox, oc, n - 1);
      RowSumBound(tap, m, l, b, oy, ox, oc, n - 1, l.filterShape.d2);
      var row: int := m * l.inShape.d3 * l.filterShape.d2;
      assert row * n == row * (n - 1) + row;
    }
  }

  /** With TFLite's offsets, up to 65,793 taps cannot overflow the 32-bit accumulator: it holds the true sum. */
  lemma AccumulatorIsExactSum(offset: int32, l: Layer, b: int, oy: int, ox: int, oc: int)
    requires l.Valid() && Inside(l.outShape, b, oy, ox, oc) && -127 <= offset <= 128
    requires Taps(l) <= 65793
    ensures Accumulator(ExactTap(offset), l, b, oy, ox, oc)
         == WindowSum(ExactTap(offset), l, b, oy, ox, oc, l.filterShape.d1)
  {
    hide WindowSum;
    var tap := ExactTap(offset);
    forall x: int8, f: int8 ensures -32640 <= tap(x, f) <= 32640 {
      TapBound(offset, x, f);
    }
    WindowSumBound(tap, 32640, l, b, oy, ox, oc, l.filterShape.d1);
    TapCount(l.filterShape.d1, l.filterShape.d2, l.inShape.d3);
  }

  /** The taps of one output cell. */
  function Taps(l: Layer): nat {
    l.filterShape.d1 * l.filterShape.d2 * l.filterShape.d3
  }

  lemma TapCount(h: nat, w: nat, d: nat)
    requires h * w * d <= 65793
    ensures 32640 * d * w * h < TWO_31
  {
    assert 32640 * d * w * h == 32640 * (h * w * d);
  }

  /** Every accumulator of the layer is the true sum. */
  ghost predicate SumsExactly(offset: int32, l: Layer) {
    l.Valid() ==> forall b, oy, ox, oc :: Inside(l.outShape, b, oy, ox, oc) ==>
      Accumulator(ExactTap(offset), l, b, oy, ox, oc) == WindowSum(ExactTap(offset), l, b, oy, ox, oc, l.filterShape.d1)
  }

  /** 65,793 is the exact limit: already at offset -127 one tap more can overflow. */
  lemma TapLimit(taps: nat)
    ensures (forall l: Layer :: Taps(l) <= taps ==> SumsExactly(-127, l)) <==> taps <= 65793
    ensures taps <= 65793 ==>
      forall offset: int32, l: Layer :: -127 <= offset <= 128 && Taps(l) <= taps ==> SumsExactly(offset, l)
  {
    hide Accumulator, WindowSum, Taps, SumsExactly;
    if taps <= 65793 {
      forall offset: int32, l: Layer | -127 <= offset <= 128 && Taps(l) <= taps ensures SumsExactly(offset, l) {
        FewTaps(offset, l);
      }
    } else {
      DeepPixelOverflows();
    }
  }

  lemma FewTaps(offset: int32, l: Layer)
    requires -127 <= offset <= 128 && Taps(l) <= 65793
    ensures SumsExactly(offset, l)
  {
    hide Accumulator, WindowSum, Taps, Layer.Valid;
    if l.Valid() {
      forall b, oy, ox, oc | Inside(l.outShape, b, oy, ox, oc)
        ensures Accumulator(ExactTap(offset), l, b, oy, ox, oc)
             == WindowSum(ExactTap(offset), l, b, oy, ox, oc, l.filterShape.d1)
      {
        AccumulatorIsExactSum(offset, l, b, oy, ox, oc);
      }
    }
  }

  /** A single pixel of n channels, all at the low end, against a filter of the same bytes. */
  function DeepPixel(n: nat): Layer {
    var one, bytes := Shape(1, 1, 1, n), seq(n, _ => -128);
    Layer(Params(1, 1, 1, 1, 0, 0), one, bytes, one, bytes, Shape(1, 1, 1, 1))
  }

  lemma {:induction false} ConstantSum(bytes: seq<int8>, n: nat)
    requires n <= |bytes| && forall i :: 0 <= i < |bytes| ==> bytes[i] == -128
    ensures ChannelSum(ExactTap(-127), bytes, 0, bytes, 0, n) == 32640 * n
  {
    if n > 0 {
      ConstantSum(bytes, n - 1);
    }
  }

  lemma DeepPixelSum(n: nat)
    ensures var l := DeepPixel(n);
      l.Valid() && Taps(l) == n && Inside(l.outShape, 0, 0, 0, 0)
      && WindowSum(ExactTap(-127), l, 0, 0, 0, 0, l.filterShape.d1) == 32640 * n
  {
    var l, tap := DeepPixel(n), ExactTap(-127);
    assert l.Valid();
    ConstantSum(l.input, n);
    hide ChannelSum;
    assert PixelSum(tap, l, 0, 0, 0, 0, 0, 0) == 32640 * n;
    assert RowSum(tap, l, 0, 0, 0, 0, 0, 1) == RowSum(tap, l, 0, 0, 0, 0, 0, 0) + PixelSum(tap, l, 0, 0, 0, 0, 0, 0);
    assert WindowSum(tap, l, 0, 0, 0, 0, 1) == WindowSum(tap, l, 0, 0, 0, 0, 0) + RowSum(tap, l, 0, 0, 0, 0, 0, 1);
  }

  lemma DeepPixelOverflows()
    ensures Taps(DeepPixel(65794)) == 65794 && !SumsExactly(-127, DeepPixel(65794))
  {
    var l := DeepPixel(65794);
    DeepPixelSum(65794);
    hide WindowSum, Taps, Layer.Valid, DeepPixel;
    assert WindowSum(ExactTap(-127), l, 0, 0, 0, 0, l.filterShape.d1) >= TWO_31;
  }
}
