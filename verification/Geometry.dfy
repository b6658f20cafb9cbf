/** What padding, stride and dilation of a convolution mean: every layer computes what a plain one, without any of them,
    computes on the explicitly padded image with a zero-stuffed filter. */
module Geometry {
  import opened Conv
  import opened Kernels
  import opened Words

  // ---------- arrays given element by element ----------

  type Elements = (int, int, int, int) -> int8

  /** The element at a row-major position. */
  function ElementAt(s: Shape, f: Elements, i: int): int8 {
    if s.d1 == 0 || s.d2 == 0 || s.d3 == 0 then 0
    else f(i / s.d3 / s.d2 / s.d1, i / s.d3 / s.d2 % s.d1, i / s.d3 % s.d2, i % s.d3)
  }

  function Array(s: Shape, f: Elements): (data: seq<int8>)
    ensures |data| == FlatSize(s)
  {
    seq(FlatSize(s), i => ElementAt(s, f, i))
  }

  lemma ArrayAt(s: Shape, f: Elements, i0: int, i1: int, i2: int, i3: int)
    requires Inside(s, i0, i1, i2, i3)
    ensures 0 <= Offset(s, i0, i1, i2, i3) < FlatSize(s)
    ensures Array(s, f)[Offset(s, i0, i1, i2, i3)] == f(i0, i1, i2, i3)
  {
    OffsetInside(s, i0, i1, i2, i3);
    hide FlatSize;
    var row := i0 * s.d1 + i1;
    var pixel := row * s.d2 + i2;
    DivModUnique(Offset(s, i0, i1, i2, i3), s.d3, pixel, i3);
    DivModUnique(pixel, s.d2, row, i2);
    DivModUnique(row, s.d1, i0, i1);
  }

  /** An element, or the fill value outside the array. */
  function ElementOr(s: Shape, data: seq<int8>, i0: int, i1: int, i2: int, i3: int, fill: int8): int8
    requires |data| == FlatSize(s)
  {
    if Inside(s, i0, i1, i2, i3) then
      OffsetInside(s, i0, i1, i2, i3);
      data[Offset(s, i0, i1, i2, i3)]
    else fill
  }

  // ---------- channel sums ----------

  function Byte(bytes: seq<int8>, at: int, c: nat): int8
    requires 0 <= at && at + c < |bytes|
  {
    bytes[at + c]
  }

  ghost predicate SameBytes(x: seq<int8>, i: int, x': seq<int8>, i': int, n: nat) {
    && 0 <= i && i + n <= |x| && 0 <= i' && i' + n <= |x'|
    && forall c: nat :: c < n ==> Byte(x, i, c) == Byte(x', i', c)
  }

  lemma {:induction false} SameSum(tap: TapFunction, x: seq<int8>, i: int, f: seq<int8>, j: int,
                                   x': seq<int8>, i': int, f': seq<int8>, j': int, n: nat)
    requires SameBytes(x, i, x', i', n) && SameBytes(f, j, f', j', n)
    ensures ChannelSum(tap, x, i, f, j, n) == ChannelSum(tap, x', i', f', j', n)
  {
    if n > 0 {
      SameSum(tap, x, i, f, j, x', i', f', j', n - 1);
      assert Byte(x, i, n - 1) == Byte(x', i', n - 1) && Byte(f, j, n - 1) == Byte(f', j', n - 1);
    }
  }

  lemma {:induction false} NothingAdded(tap: TapFunction, x: seq<int8>, i: int, f: seq<int8>, j: int, n: nat)
    requires 0 <= i && i + n <= |x| && 0 <= j && j + n <= |f|
    requires forall c: nat :: c < n ==> tap(Byte(x, i, c), Byte(f, j, c)) == 0
    ensures ChannelSum(tap, x, i, f, j, n) == 0
  {
    if n > 0 {
      NothingAdded(tap, x, i, f, j, n - 1);
      assert tap(Byte(x, i, n - 1), Byte(f, j, n - 1)) == 0;
    }
  }

  /** What filter position (fy, fx) adds over the pixel in row iy, column ix. */
  function PixelAt(tap: TapFunction, l: Layer, b: int, iy: int, ix: int, oc: int, fy: int, fx: int): int
    requires l.Valid() && 0 <= b < l.inShape.d0 && 0 <= oc < l.filterShape.d0
    requires 0 <= fy < l.filterShape.d1 && 0 <= fx < l.filterShape.d2
  {
    if !l.InImage(iy, ix) then 0
    else
      PixelInside(l.inShape, b, iy, ix);
      PixelInside(l.filterShape, oc, fy, fx);
      ChannelSum(tap, l.input, Offset(l.inShape, b, iy, ix, 0), l.filter, Offset(l.filterShape, oc, fy, fx, 0),
                 l.inShape.d3)
  }

  lemma PixelSumAt(tap: TapFunction, l: Layer, b: int, oy: int, ox: int, oc: int, fy: int, fx: int)
    requires l.Valid() && Inside(l.outShape, b, oy, ox, oc) && 0 <= fy < l.filterShape.d1 && 0 <= fx < l.filterShape.d2
    ensures PixelSum(tap, l, b, oy, ox, oc, fy, fx) == PixelAt(tap, l, b, l.InY(oy, fy), l.InX(ox, fx), oc, fy, fx)
  {
    hide Offset, FlatSize, ChannelSum;
  }

  lemma OffsetOfChannel(s: Shape, i0: int, i1: int, i2: int, c: int)
    ensures Offset(s, i0, i1, i2, c) == Offset(s, i0, i1, i2, 0) + c
  {
  }

  // ---------- cells that agree position by position ----------

  /** Cell (oy, ox) of one layer and cell (vy, vx) of another add the same at every filter position. */
  ghost predicate PositionsAgree(tap: TapFunction, l: Layer, oy: int, ox: int, v: Layer, vy: int, vx: int, b: int,
                                 oc: int)
    requires l.Valid() && v.Valid() && Inside(l.outShape, b, oy, ox, oc) && Inside(v.outShape, b, vy, vx, oc)
    requires l.filterShape == v.filterShape
  {
    forall fy, fx :: 0 <= fy < l.filterShape.d1 && 0 <= fx < l.filterShape.d2 ==>
      PixelSum(tap, l, b, oy, ox, oc, fy, fx) == PixelSum(tap, v, b, vy, vx, oc, fy, fx)
  }

  lemma {:induction false} RowsAgree(tap: TapFunction, l: Layer, oy: int, ox: int, v: Layer, vy: int, vx: int, b: int,
                                     oc: int, fy: int, n: nat)
    requires l.Valid() && v.Valid() && Inside(l.outShape, b, oy, ox, oc) && Inside(v.outShape, b, vy, vx, oc)
    requires l.filterShape == v.filterShape && 0 <= fy < l.filterShape.d1 && n <= l.filterShape.d2
    requires PositionsAgree(tap, l, oy, ox, v, vy, vx, b, oc)
    ensures RowSum(tap, l, b, oy, ox, oc, fy, n) == RowSum(tap, v, b, vy, vx, oc, fy, n)
  {
    hide PixelSum, Layer.Valid;
    if n > 0 {
      RowsAgree(tap, l, oy, ox, v, vy, vx, b, oc, fy, n - 1);
    }
  }

  lemma {:induction false} WindowsAgree(tap: TapFunction, l: Layer, oy: int, ox: int, v: Layer, vy: int, vx: int,
                                        b: int, oc: int, n: nat)
    requires l.Valid() && v.Valid() && Inside(l.outShape, b, oy, ox, oc) && Inside(v.outShape, b, vy, vx, oc)
    requires l.filterShape == v.filterShape && n <= l.filterShape.d1
    requires PositionsAgree(tap, l, oy, ox, v, vy, vx, b, oc)
    ensures WindowSum(tap, l, b, oy, ox, oc, n) == WindowSum(tap, v, b, vy, vx, oc, n)
  {
    hide RowSum, Layer.Valid;
    if n > 0 {
      WindowsAgree(tap, l, oy, ox, v, vy, vx, b, oc, n - 1);
      RowsAgree(tap, l, oy, ox, v, vy, vx, b, oc, n - 1, l.filterShape.d2);
    }
  }

  lemma Sizes(l: Layer)
    requires l.Valid()
    ensures |l.input| == FlatSize(l.inShape) && |l.filter| == FlatSize(l.filterShape)
  {
  }

  // ---------- padding ----------

  /** The layer on the image with its padding written out, `below` and `right` more pixels on the far sides, and no
      padding left. */
  function Padded(l: Layer, fill: int8, below: nat, right: nat): Layer
    requires |l.input| == FlatSize(l.inShape) && 0 <= l.p.padHeight && 0 <= l.p.padWidth
  {
    var s := l.inShape;
    var t := s.(d1 := l.p.padHeight + s.d1 + below, d2 := l.p.padWidth + s.d2 + right);
    l.(p := l.p.(padHeight := 0, padWidth := 0), inShape := t, input := Array(t, PaddedElements(l, fill)))
  }

  function PaddedElements(l: Layer, fill: int8): Elements
    requires |l.input| == FlatSize(l.inShape)
  {
    (b: int, y: int, x: int, c: int) => ElementOr(l.inShape, l.input, b, y - l.p.padHeight, x - l.p.padWidth, c, fill)
  }

  /** One pixel of the padded image: the image's own bytes, or the fill value in all channels. */
  lemma PaddedPixel(l: Layer, fill: int8, below: nat, right: nat, b: int, y: int, x: int)
    requires |l.input| == FlatSize(l.inShape) && 0 <= l.p.padHeight && 0 <= l.p.padWidth && 0 <= b < l.inShape.d0
    requires Padded(l, fill, below, right).InImage(y + l.p.padHeight, x + l.p.padWidth)
    ensures var v := Padded(l, fill, below, right);
      var i := Offset(v.inShape, b, y + l.p.padHeight, x + l.p.padWidth, 0);
      && 0 <= i && i + l.inShape.d3 <= |v.input|
      && (l.InImage(y, x) ==> SameBytes(l.input, Offset(l.inShape, b, y, x, 0), v.input, i, l.inShape.d3))
      && (!l.InImage(y, x) ==> forall c: nat :: c < l.inShape.d3 ==> Byte(v.input, i, c) == fill)
  {
    var s, v := l.inShape, Padded(l, fill, below, right);
    var i := Offset(v.inShape, b, y + l.p.padHeight, x + l.p.padWidth, 0);
    PixelInside(v.inShape, b, y + l.p.padHeight, x + l.p.padWidth);
    forall c: nat | c < s.d3 ensures Byte(v.input, i, c) == ElementOr(s, l.input, b, y, x, c, fill) {
      PaddedElement(l, fill, below, right, b, y, x, c);
    }
    hide Offset, FlatSize, Padded;
    if l.InImage(y, x) {
      PixelInside(s, b, y, x);
      forall c: nat | c < s.d3
        ensures Byte(l.input, Offset(s, b, y, x, 0), c) == ElementOr(s, l.input, b, y, x, c, fill)
      {
        OffsetOfChannel(s, b, y, x, c);
      }
    }
  }

  lemma PaddedElement(l: Layer, fill: int8, below: nat, right: nat, b: int, y: int, x: int, c: int)
    requires |l.input| == FlatSize(l.inShape) && 0 <= l.p.padHeight && 0 <= l.p.padWidth
    requires Inside(Padded(l, fill, below, right).inShape, b, y + l.p.padHeight, x + l.p.padWidth, c)
    ensures var v := Padded(l, fill, below, right);
      var i := Offset(v.inShape, b, y + l.p.padHeight, x + l.p.padWidth, 0) + c;
      0 <= i < |v.input| && v.input[i] == ElementOr(l.inShape, l.input, b, y, x, c, fill)
  {
    var t := Padded(l, fill, below, right).inShape;
    ArrayAt(t, PaddedElements(l, fill), b, y + l.p.padHeight, x + l.p.padWidth, c);
    OffsetOfChannel(t, b, y + l.p.padHeight, x + l.p.padWidth, c);
    hide Offset, FlatSize, ElementOr, Array;
  }

  lemma PaddedUnder(l: Layer, fill: int8, below: nat, right: nat, oy: int, ox: int, fy: int, fx: int)
    requires |l.input| == FlatSize(l.inShape) && 0 <= l.p.padHeight && 0 <= l.p.padWidth
    ensures Padded(l, fill, below, right).InY(oy, fy) == l.InY(oy, fy) + l.p.padHeight
    ensures Padded(l, fill, below, right).InX(ox, fx) == l.InX(ox, fx) + l.p.padWidth
  {
  }

  /** Filling with minus the offset, which is a byte for TFLite's offsets, gives the skipped positions' zeros. */
  lemma PaddedPosition(offset: int, l: Layer, below: nat, right: nat, b: int, oy: int, ox: int, oc: int, fy: int,
                       fx: int)
    requires -127 <= offset <= 128 && l.Valid() && 0 <= l.p.padHeight && 0 <= l.p.padWidth
    requires Padded(l, -offset, below, right).Valid()
    requires Inside(l.outShape, b, oy, ox, oc) && 0 <= fy < l.filterShape.d1 && 0 <= fx < l.filterShape.d2
    ensures PixelSum(ExactTap(offset), l, b, oy, ox, oc, fy, fx)
         == PixelSum(ExactTap(offset), Padded(l, -offset, below, right), b, oy, ox, oc, fy, fx)
  {
    var v := Padded(l, -offset, below, right);
    PaddedUnder(l, -offset, below, right, oy, ox, fy, fx);
    assert v.filterShape == l.filterShape && v.outShape == l.outShape;
    hide Padded, PixelSum, PixelAt, Layer.InY, Layer.InX, Layer.Valid;
    PixelSumAt(ExactTap(offset), l, b, oy, ox, oc, fy, fx);
    PixelSumAt(ExactTap(offset), v, b, oy, ox, oc, fy, fx);
    PaddedPixelAdds(offset, l, below, right, b, l.InY(oy, fy), l.InX(ox, fx), oc, fy, fx);
  }

  lemma PaddedPixelAdds(offset: int, l: Layer, below: nat, right: nat, b: int, iy: int, ix: int, oc: int, fy: int,
                        fx: int)
    requires -127 <= offset <= 128 && l.Valid() && 0 <= l.p.padHeight && 0 <= l.p.padWidth
    requires Padded(l, -offset, below, right).Valid() && 0 <= b < l.inShape.d0 && 0 <= oc < l.filterShape.d0
    requires 0 <= fy < l.filterShape.d1 && 0 <= fx < l.filterShape.d2
    ensures PixelAt(ExactTap(offset), l, b, iy, ix, oc, fy, fx)
         == PixelAt(ExactTap(offset), Padded(l, -offset, below, right), b, iy + l.p.padHeight, ix + l.p.padWidth, oc,
                    fy, fx)
  {
    var v, y, x := Padded(l, -offset, below, right), iy + l.p.padHeight, ix + l.p.padWidth;
    assert v.filterShape == l.filterShape && v.filter == l.filter && v.inShape.d3 == l.inShape.d3;
    assert v.inShape.d0 == l.inShape.d0 && (l.InImage(iy, ix) ==> v.InImage(y, x));
    Sizes(l);
    if v.InImage(y, x) {
      PaddedPixel(l, -offset, below, right, b, iy, ix);
    }
    hide Padded, Offset, FlatSize, ChannelSum, Layer.Valid, Layer.InImage, SameBytes, PixelAt;
    if l.InImage(iy, ix) {
      SamePixel(ExactTap(offset), l, b, iy, ix, v, y, x, oc, fy, fx);
    } else {
      FilledPixel(offset, v, b, y, x, oc, fy, fx);
      OutsideAddsNothing(ExactTap(offset), l, b, iy, ix, oc, fy, fx);
    }
  }

  lemma OutsideAddsNothing(tap: TapFunction, l: Layer, b: int, iy: int, ix: int, oc: int, fy: int, fx: int)
    requires l.Valid() && 0 <= b < l.inShape.d0 && 0 <= oc < l.filterShape.d0
    requires 0 <= fy < l.filterShape.d1 && 0 <= fx < l.filterShape.d2 && !l.InImage(iy, ix)
    ensures PixelAt(tap, l, b, iy, ix, oc, fy, fx) == 0
  {
  }

  /** A pixel filled with minus the offset adds nothing. */
  lemma FilledPixel(offset: int, v: Layer, b: int, y: int, x: int, oc: int, fy: int, fx: int)
    requires v.Valid() && 0 <= b < v.inShape.d0 && 0 <= oc < v.filterShape.d0
    requires 0 <= fy < v.filterShape.d1 && 0 <= fx < v.filterShape.d2
    requires v.InImage(y, x) ==>
      var i := Offset(v.inShape, b, y, x, 0);
      && 0 <= i && i + v.inShape.d3 <= |v.input|
      && forall c: nat :: c < v.inShape.d3 ==> Byte(v.input, i, c) == -offset
    ensures PixelAt(ExactTap(offset), v, b, y, x, oc, fy, fx) == 0
  {
    Sizes(v);
    PixelInside(v.filterShape, oc, fy, fx);
    hide Offset, FlatSize, ChannelSum, Layer.InImage;
    if v.InImage(y, x) {
      NothingAdded(ExactTap(offset), v.input, Offset(v.inShape, b, y, x, 0), v.filter,
                   Offset(v.filterShape, oc, fy, fx, 0), v.inShape.d3);
    }
  }

  /** The same filter over the same bytes. */
  lemma SamePixel(tap: TapFunction, l: Layer, b: int, iy: int, ix: int, v: Layer, vy: int, vx: int, oc: int, fy: int,
                  fx: int)
    requires l.Valid() && v.Valid() && l.InImage(iy, ix) && v.InImage(vy, vx)
    requires l.filterShape == v.filterShape && l.filter == v.filter && l.inShape.d3 == v.inShape.d3
    requires 0 <= b < l.inShape.d0 && b < v.inShape.d0 && 0 <= oc < l.filterShape.d0
    requires 0 <= fy < l.filterShape.d1 && 0 <= fx < l.filterShape.d2
    requires SameBytes(l.input, Offset(l.inShape, b, iy, ix, 0), v.input, Offset(v.inShape, b, vy, vx, 0), l.inShape.d3)
    ensures PixelAt(tap, l, b, iy, ix, oc, fy, fx) == PixelAt(tap, v, b, vy, vx, oc, fy, fx)
  {
    PixelInside(l.filterShape, oc, fy, fx);
    Sizes(l);
    hide Offset, FlatSize, ChannelSum, Layer.InImage;
    var j := Offset(l.filterShape, oc, fy, fx, 0);
    assert SameBytes(l.filter, j, l.filter, j, l.inShape.d3);
    SameSum(tap, l.input, Offset(l.inShape, b, iy, ix, 0), l.filter, j,
            v.input, Offset(v.inShape, b, vy, vx, 0), l.filter, j, l.inShape.d3);
  }

  /** A padded layer has the accumulators of the layer on the padded image. */
  lemma PaddingIsFill(offset: int, l: Layer, below: nat, right: nat, b: int, oy: int, ox: int, oc: int)
    requires -127 <= offset <= 128 && l.Valid() && 0 <= l.p.padHeight && 0 <= l.p.padWidth
    requires Padded(l, -offset, below, right).Valid() && Inside(l.outShape, b, oy, ox, oc)
    ensures Accumulator(ExactTap(offset), l, b, oy, ox, oc)
         == Accumulator(ExactTap(offset), Padded(l, -offset, below, right), b, oy, ox, oc)
  {
    var v := Padded(l, -offset, below, right);
    assert v.filterShape == l.filterShape && v.outShape == l.outShape;
    hide PixelSum, WindowSum, Layer.Valid, ToInt32, Padded;
    forall fy, fx | 0 <= fy < l.filterShape.d1 && 0 <= fx < l.filterShape.d2
      ensures PixelSum(ExactTap(offset), l, b, oy, ox, oc, fy, fx)
           == PixelSum(ExactTap(offset), v, b, oy, ox, oc, fy, fx)
    {
      PaddedPosition(offset, l, below, right, b, oy, ox, oc, fy, fx);
    }
    WindowsAgree(ExactTap(offset), l, oy, ox, v, oy, ox, b, oc, l.filterShape.d1);
  }

  // ---------- stride ----------

  /** n things, `gap` apart, with everything between them. */
  function Spread(n: nat, gap: int): nat
    requires gap > 0
  {
    if n == 0 then 0 else (n - 1) * gap + 1
  }

  lemma SpreadInside(n: nat, gap: int, i: int)
    requires gap > 0 && 0 <= i < n
    ensures 0 <= i * gap < Spread(n, gap)
  {
    MulMono(gap, 0, i);
    MulMono(gap, i, n - 1);
  }

  /** The layer that computes every cell, not only those a stride apart. */
  function Unstrided(l: Layer): Layer
    requires l.p.strideHeight > 0 && l.p.strideWidth > 0
  {
    l.(p := l.p.(strideHeight := 1, strideWidth := 1),
       outShape := l.outShape.(d1 := Spread(l.outShape.d1, l.p.strideHeight),
                               d2 := Spread(l.outShape.d2, l.p.strideWidth)))
  }

  /** What lies between the ends of a 32-bit range is in the range. */
  lemma Between(base: int, gap: int, i: int, n: nat)
    requires gap > 0 && 0 <= i < Spread(n, gap)
    ensures n > 0 && base <= base + i <= base + (n - 1) * gap
  {
  }

  lemma UnstridedValid(l: Layer)
    requires l.Valid() && l.p.strideHeight > 0 && l.p.strideWidth > 0
    ensures Unstrided(l).Valid()
  {
    hide FlatSize;
    var v := Unstrided(l);
    forall y, fy | 0 <= y < v.outShape.d1 && 0 <= fy < l.filterShape.d1 ensures -TWO_31 <= v.InY(y, fy) < TWO_31 {
      UnstridedRow(l, y, fy);
    }
    forall x, fx | 0 <= x < v.outShape.d2 && 0 <= fx < l.filterShape.d2 ensures -TWO_31 <= v.InX(x, fx) < TWO_31 {
      UnstridedColumn(l, x, fx);
    }
  }

  lemma UnstridedRow(l: Layer, y: int, fy: int)
    requires l.Valid() && l.p.strideHeight > 0 && l.p.strideWidth > 0
    requires 0 <= y < Unstrided(l).outShape.d1 && 0 <= fy < l.filterShape.d1
    ensures -TWO_31 <= Unstrided(l).InY(y, fy) < TWO_31
  {
    hide FlatSize;
    Between(l.InY(0, fy), l.p.strideHeight, y, l.outShape.d1);
    var low, high := l.InY(0, fy), l.InY(l.outShape.d1 - 1, fy);
    assert -TWO_31 <= low && high < TWO_31;
    hide Layer.Valid;
  }

  lemma UnstridedColumn(l: Layer, x: int, fx: int)
    requires l.Valid() && l.p.strideHeight > 0 && l.p.strideWidth > 0
    requires 0 <= x < Unstrided(l).outShape.d2 && 0 <= fx < l.filterShape.d2
    ensures -TWO_31 <= Unstrided(l).InX(x, fx) < TWO_31
  {
    hide FlatSize;
    Between(l.InX(0, fx), l.p.strideWidth, x, l.outShape.d2);
    var low, high := l.InX(0, fx), l.InX(l.outShape.d2 - 1, fx);
    assert -TWO_31 <= low && high < TWO_31;
    hide Layer.Valid;
  }

  /** A strided layer computes every stride-th cell. */
  lemma StrideSkipsCells(tap: TapFunction, l: Layer, b: int, oy: int, ox: int, oc: int)
    requires l.Valid() && l.p.strideHeight > 0 && l.p.strideWidth > 0 && Inside(l.outShape, b, oy, ox, oc)
    ensures Unstrided(l).Valid() && Inside(Unstrided(l).outShape, b, oy * l.p.strideHeight, ox * l.p.strideWidth, oc)
    ensures Accumulator(tap, l, b, oy, ox, oc)
         == Accumulator(tap, Unstrided(l), b, oy * l.p.strideHeight, ox * l.p.strideWidth, oc)
  {
    UnstridedValid(l);
    SpreadInside(l.outShape.d1, l.p.strideHeight, oy);
    SpreadInside(l.outShape.d2, l.p.strideWidth, ox);
    hide WindowSum, Layer.Valid, ToInt32, ChannelSum, Offset, FlatSize, Spread;
    var v, vy, vx := Unstrided(l), oy * l.p.strideHeight, ox * l.p.strideWidth;
    forall fy, fx ensures l.InY(oy, fy) == v.InY(vy, fy) && l.InX(ox, fx) == v.InX(vx, fx) {
    }
    WindowsAgree(tap, l, oy, ox, v, vy, vx, b, oc, l.filterShape.d1);
  }

  // ---------- dilation ----------

  /** The layer with its filter's rows and columns moved apart, zeros between them, and no dilation left. */
  function Stuffed(l: Layer): Layer
    requires |l.filter| == FlatSize(l.filterShape) && l.p.dilationHeight > 0 && l.p.dilationWidth > 0
  {
    var s := l.filterShape;
    var t := s.(d1 := Spread(s.d1, l.p.dilationHeight), d2 := Spread(s.d2, l.p.dilationWidth));
    l.(p := l.p.(dilationHeight := 1, dilationWidth := 1), filterShape := t, filter := Array(t, StuffedElements(l)))
  }

  function StuffedElements(l: Layer): Elements
    requires |l.filter| == FlatSize(l.filterShape) && l.p.dilationHeight > 0 && l.p.dilationWidth > 0
  {
    (o: int, y: int, x: int, c: int) =>
      if y % l.p.dilationHeight == 0 && x % l.p.dilationWidth == 0
      then ElementOr(l.filterShape, l.filter, o, y / l.p.dilationHeight, x / l.p.dilationWidth, c, 0)
      else 0
  }

  lemma StuffedValid(l: Layer)
    requires l.Valid() && l.p.dilationHeight > 0 && l.p.dilationWidth > 0
    ensures Stuffed(l).Valid()
  {
    hide FlatSize, Array, StuffedElements;
    var v := Stuffed(l);
    forall oy, y | 0 <= oy < l.outShape.d1 && 0 <= y < v.filterShape.d1 ensures -TWO_31 <= v.InY(oy, y) < TWO_31 {
      StuffedRow(l, oy, y);
    }
    forall ox, x | 0 <= ox < l.outShape.d2 && 0 <= x < v.filterShape.d2 ensures -TWO_31 <= v.InX(ox, x) < TWO_31 {
      StuffedColumn(l, ox, x);
    }
  }

  lemma StuffedRow(l: Layer, oy: int, y: int)
    requires l.Valid() && l.p.dilationHeight > 0 && l.p.dilationWidth > 0
    requires 0 <= oy < l.outShape.d1 && 0 <= y < Stuffed(l).filterShape.d1
    ensures -TWO_31 <= Stuffed(l).InY(oy, y) < TWO_31
  {
    hide FlatSize, Array, StuffedElements;
    Between(l.InY(oy, 0), l.p.dilationHeight, y, l.filterShape.d1);
    var low, high := l.InY(oy, 0), l.InY(oy, l.filterShape.d1 - 1);
    assert -TWO_31 <= low && high < TWO_31;
    hide Layer.Valid;
  }

  lemma StuffedColumn(l: Layer, ox: int, x: int)
    requires l.Valid() && l.p.dilationHeight > 0 && l.p.dilationWidth > 0
    requires 0 <= ox < l.outShape.d2 && 0 <= x < Stuffed(l).filterShape.d2
    ensures -TWO_31 <= Stuffed(l).InX(ox, x) < TWO_31
  {
    hide FlatSize, Array, StuffedElements;
    Between(l.InX(ox, 0), l.p.dilationWidth, x, l.filterShape.d2);
    var low, high := l.InX(ox, 0), l.InX(ox, l.filterShape.d2 - 1);
    assert -TWO_31 <= low && high < TWO_31;
    hide Layer.Valid;
  }

  /** A tap at a zero of the filter adds nothing. */
  ghost predicate ZeroTap(tap: TapFunction) {
    forall x: int8 :: tap(x, 0) == 0
  }

  /** One position of the stuffed filter: the filter's own bytes, or zeros in all channels. */
  lemma StuffedPixel(l: Layer, o: int, y: int, x: int)
    requires |l.filter| == FlatSize(l.filterShape) && l.p.dilationHeight > 0 && l.p.dilationWidth > 0
    requires 0 <= o < l.filterShape.d0 && 0 <= y < Stuffed(l).filterShape.d1 && 0 <= x < Stuffed(l).filterShape.d2
    ensures var v, fy, fx := Stuffed(l), y / l.p.dilationHeight, x / l.p.dilationWidth;
      var j := Offset(v.filterShape, o, y, x, 0);
      && 0 <= j && j + l.filterShape.d3 <= |v.filter|
      && if y % l.p.dilationHeight == 0 && x % l.p.dilationWidth == 0
         then fy < l.filterShape.d1 && fx < l.filterShape.d2
              && SameBytes(l.filter, Offset(l.filterShape, o, fy, fx, 0), v.filter, j, l.filterShape.d3)
         else forall c: nat :: c < l.filterShape.d3 ==> Byte(v.filter, j, c) == 0
  {
    var v, s, fy, fx := Stuffed(l), l.filterShape, y / l.p.dilationHeight, x / l.p.dilationWidth;
    var j := Offset(v.filterShape, o, y, x, 0);
    PixelInside(v.filterShape, o, y, x);
    forall c: nat | c < s.d3 ensures Byte(v.filter, j, c) == StuffedElements(l)(o, y, x, c) {
      StuffedElement(l, o, y, x, c);
    }
    SpreadBetween(s.d1, l.p.dilationHeight, y);
    SpreadBetween(s.d2, l.p.dilationWidth, x);
    hide Offset, FlatSize, Stuffed, Spread;
    if y % l.p.dilationHeight == 0 && x % l.p.dilationWidth == 0 {
      PixelInside(s, o, fy, fx);
      forall c: nat | c < s.d3 ensures Byte(l.filter, Offset(s, o, fy, fx, 0), c) == StuffedElements(l)(o, y, x, c) {
        OffsetOfChannel(s, o, fy, fx, c);
      }
    }
  }

  lemma StuffedElement(l: Layer, o: int, y: int, x: int, c: int)
    requires |l.filter| == FlatSize(l.filterShape) && l.p.dilationHeight > 0 && l.p.dilationWidth > 0
    requires Inside(Stuffed(l).filterShape, o, y, x, c)
    ensures var v := Stuffed(l);
      var j := Offset(v.filterShape, o, y, x, 0) + c;
      0 <= j < |v.filter| && v.filter[j] == StuffedElements(l)(o, y, x, c)
  {
    var t := Stuffed(l).filterShape;
    ArrayAt(t, StuffedElements(l), o, y, x, c);
    OffsetOfChannel(t, o, y, x, c);
    hide Offset, FlatSize, ElementOr, Array, StuffedElements;
  }

  /** Only multiples of the gap are further apart than nothing. */
  lemma SpreadBetween(n: nat, gap: int, i: int)
    requires gap > 0 && 0 <= i < Spread(n, gap)
    ensures 0 <= i / gap < n
  {
    MulMono(gap, n, i / gap);
  }

  lemma StuffedUnder(l: Layer, oy: int, ox: int, fy: int, fx: int)
    requires |l.filter| == FlatSize(l.filterShape) && l.p.dilationHeight > 0 && l.p.dilationWidth > 0
    ensures Stuffed(l).InY(oy, fy * l.p.dilationHeight) == l.InY(oy, fy)
    ensures Stuffed(l).InX(ox, fx * l.p.dilationWidth) == l.InX(ox, fx)
  {
  }

  /** A position between the filter's own adds nothing. */
  lemma BetweenAddsNothing(tap: TapFunction, l: Layer, b: int, oy: int, ox: int, oc: int, y: int, x: int)
    requires ZeroTap(tap) && l.Valid() && l.p.dilationHeight > 0 && l.p.dilationWidth > 0 && Stuffed(l).Valid()
    requires Inside(l.outShape, b, oy, ox, oc)
    requires 0 <= y < Stuffed(l).filterShape.d1 && 0 <= x < Stuffed(l).filterShape.d2
    requires y % l.p.dilationHeight != 0 || x % l.p.dilationWidth != 0
    ensures PixelSum(tap, Stuffed(l), b, oy, ox, oc, y, x) == 0
  {
    var v := Stuffed(l);
    var iy, ix := v.InY(oy, y), v.InX(ox, x);
    PixelSumAt(tap, v, b, oy, ox, oc, y, x);
    StuffedPixel(l, oc, y, x);
    if v.InImage(iy, ix) {
      PixelInside(v.inShape, b, iy, ix);
      hide Stuffed, Offset, FlatSize, Layer.Valid, Layer.InY, Layer.InX, ChannelSum;
      NothingAdded(tap, v.input, Offset(v.inShape, b, iy, ix, 0), v.filter, Offset(v.filterShape, oc, y, x, 0),
                   v.inShape.d3);
    }
  }

  /** The filter's own positions add what they did. */
  lemma OwnAddsSame(tap: TapFunction, l: Layer, b: int, oy: int, ox: int, oc: int, fy: int, fx: int)
    requires l.Valid() && l.p.dilationHeight > 0 && l.p.dilationWidth > 0 && Stuffed(l).Valid()
    requires Inside(l.outShape, b, oy, ox, oc) && 0 <= fy < l.filterShape.d1 && 0 <= fx < l.filterShape.d2
    ensures 0 <= fy * l.p.dilationHeight < Stuffed(l).filterShape.d1
    ensures 0 <= fx * l.p.dilationWidth < Stuffed(l).filterShape.d2
    ensures PixelSum(tap, Stuffed(l), b, oy, ox, oc, fy * l.p.dilationHeight, fx * l.p.dilationWidth)
         == PixelSum(tap, l, b, oy, ox, oc, fy, fx)
  {
    SpreadInside(l.filterShape.d1, l.p.dilationHeight, fy);
    SpreadInside(l.filterShape.d2, l.p.dilationWidth, fx);
    var v, y, x := Stuffed(l), fy * l.p.dilationHeight, fx * l.p.dilationWidth;
    DivModUnique(y, l.p.dilationHeight, fy, 0);
    DivModUnique(x, l.p.dilationWidth, fx, 0);
    PixelSumAt(tap, v, b, oy, ox, oc, y, x);
    PixelSumAt(tap, l, b, oy, ox, oc, fy, fx);
    StuffedPixel(l, oc, y, x);
    StuffedUnder(l, oy, ox, fy, fx);
    StuffedKeeps(tap, l, b, l.InY(oy, fy), l.InX(ox, fx), oc, fy, fx, y, x);
  }

  lemma StuffedKeeps(tap: TapFunction, l: Layer, b: int, iy: int, ix: int, oc: int, fy: int, fx: int, y: int, x: int)
    requires l.Valid() && l.p.dilationHeight > 0 && l.p.dilationWidth > 0 && Stuffed(l).Valid()
    requires 0 <= b < l.inShape.d0 && 0 <= oc < l.filterShape.d0
    requires 0 <= fy < l.filterShape.d1 && 0 <= fx < l.filterShape.d2
    requires 0 <= y < Stuffed(l).filterShape.d1 && 0 <= x < Stuffed(l).filterShape.d2
    requires SameBytes(l.filter, Offset(l.filterShape, oc, fy, fx, 0),
                       Stuffed(l).filter, Offset(Stuffed(l).filterShape, oc, y, x, 0), l.filterShape.d3)
    ensures PixelAt(tap, Stuffed(l), b, iy, ix, oc, y, x) == PixelAt(tap, l, b, iy, ix, oc, fy, fx)
  {
    var v := Stuffed(l);
    assert v.inShape == l.inShape && v.input == l.input && l.inShape.d3 == l.filterShape.d3;
    assert |l.input| == FlatSize(l.inShape);
    if l.InImage(iy, ix) {
      PixelInside(l.inShape, b, iy, ix);
      hide Stuffed, Offset, FlatSize, Layer.Valid, ChannelSum;
      var i := Offset(l.inShape, b, iy, ix, 0);
      SameSum(tap, l.input, i, l.filter, Offset(l.filterShape, oc, fy, fx, 0),
              l.input, i, v.filter, Offset(v.filterShape, oc, y, x, 0), l.inShape.d3);
    }
  }

  // The sums over the stuffed filter, between two of its own rows or columns and up to the next.

  lemma {:induction false} ColumnsBetween(tap: TapFunction, l: Layer, b: int, oy: int, ox: int, oc: int, y: int, x: nat,
                                          n: nat)
    requires ZeroTap(tap) && l.Valid() && l.p.dilationHeight > 0 && l.p.dilationWidth > 0 && Stuffed(l).Valid()
    requires Inside(l.outShape, b, oy, ox, oc)
    requires 0 <= y < Stuffed(l).filterShape.d1 && x + n <= Stuffed(l).filterShape.d2
    requires y % l.p.dilationHeight != 0 || forall i :: x <= i < x + n ==> i % l.p.dilationWidth != 0
    ensures RowSum(tap, Stuffed(l), b, oy, ox, oc, y, x + n) == RowSum(tap, Stuffed(l), b, oy, ox, oc, y, x)
  {
    hide PixelSum, Stuffed, Layer.Valid;
    if n > 0 {
      ColumnsBetween(tap, l, b, oy, ox, oc, y, x, n - 1);
      BetweenAddsNothing(tap, l, b, oy, ox, oc, y, x + n - 1);
    }
  }

  lemma {:induction false} RowsBetween(tap: TapFunction, l: Layer, b: int, oy: int, ox: int, oc: int, y: nat, n: nat)
    requires ZeroTap(tap) && l.Valid() && l.p.dilationHeight > 0 && l.p.dilationWidth > 0 && Stuffed(l).Valid()
    requires Inside(l.outShape, b, oy, ox, oc) && y + n <= Stuffed(l).filterShape.d1
    requires forall i :: y <= i < y + n ==> i % l.p.dilationHeight != 0
    ensures WindowSum(tap, Stuffed(l), b, oy, ox, oc, y + n) == WindowSum(tap, Stuffed(l), b, oy, ox, oc, y)
  {
    hide PixelSum, Stuffed, Layer.Valid;
    Sizes(l);
    if n > 0 {
      RowsBetween(tap, l, b, oy, ox, oc, y, n - 1);
      assert (y + n - 1) % l.p.dilationHeight != 0;
      ColumnsBetween(tap, l, b, oy, ox, oc, y + n - 1, 0, Stuffed(l).filterShape.d2);
    }
  }

  /** From n - 1 things spread out to n: a gap without multiples, then the n-th thing. */
  lemma SpreadStep(n: nat, gap: int)
    requires gap > 0 && n > 0
    ensures Spread(n - 1, gap) <= (n - 1) * gap && Spread(n, gap) == (n - 1) * gap + 1
    ensures forall i :: Spread(n - 1, gap) <= i < (n - 1) * gap ==> i % gap != 0
  {
    forall i | Spread(n - 1, gap) <= i < (n - 1) * gap ensures i % gap != 0 {
      if n > 1 {
        DivModUnique(i, gap, n - 2, i - (n - 2) * gap);
      }
    }
  }

  lemma {:induction false} StuffedRowSum(tap: TapFunction, l: Layer, b: int, oy: int, ox: int, oc: int, fy: int, n: nat)
    requires ZeroTap(tap) && l.Valid() && l.p.dilationHeight > 0 && l.p.dilationWidth > 0 && Stuffed(l).Valid()
    requires Inside(l.outShape, b, oy, ox, oc) && 0 <= fy < l.filterShape.d1 && n <= l.filterShape.d2
    ensures 0 <= fy * l.p.dilationHeight < Stuffed(l).filterShape.d1
    ensures Spread(n, l.p.dilationWidth) <= Stuffed(l).filterShape.d2
    ensures RowSum(tap, Stuffed(l), b, oy, ox, oc, fy * l.p.dilationHeight, Spread(n, l.p.dilationWidth))
         == RowSum(tap, l, b, oy, ox, oc, fy, n)
  {
    var y, gap := fy * l.p.dilationHeight, l.p.dilationWidth;
    SpreadInside(l.filterShape.d1, l.p.dilationHeight, fy);
    if n > 0 {
      StuffedRowSum(tap, l, b, oy, ox, oc, fy, n - 1);
      OwnAddsSame(tap, l, b, oy, ox, oc, fy, n - 1);
      SpreadStep(n, gap);
      hide PixelSum, Stuffed, Layer.Valid, Spread;
      var before := Spread(n - 1, gap);
      var at := (n - 1) * gap;
      ColumnsBetween(tap, l, b, oy, ox, oc, y, before, at - before);
    }
  }

  lemma {:induction false} StuffedWindowSum(tap: TapFunction, l: Layer, b: int, oy: int, ox: int, oc: int, n: nat)
    requires ZeroTap(tap) && l.Valid() && l.p.dilationHeight > 0 && l.p.dilationWidth > 0 && Stuffed(l).Valid()
    requires Inside(l.outShape, b, oy, ox, oc) && n <= l.filterShape.d1
    ensures Spread(n, l.p.dilationHeight) <= Stuffed(l).filterShape.d1
    ensures WindowSum(tap, Stuffed(l), b, oy, ox, oc, Spread(n, l.p.dilationHeight))
         == WindowSum(tap, l, b, oy, ox, oc, n)
  {
    if n > 0 {
      var gap := l.p.dilationHeight;
      StuffedWindowSum(tap, l, b, oy, ox, oc, n - 1);
      StuffedRowSum(tap, l, b, oy, ox, oc, n - 1, l.filterShape.d2);
      SpreadStep(n, gap);
      assert Stuffed(l).filterShape.d2 == Spread(l.filterShape.d2, l.p.dilationWidth);
      hide RowSum, Stuffed, Layer.Valid, Spread;
      var before := Spread(n - 1, gap);
      var at := (n - 1) * gap;
      RowsBetween(tap, l, b, oy, ox, oc, before, at - before);
    }
  }

  /** A dilated filter is the zero-stuffed one. */
  lemma DilationIsStuffing(tap: TapFunction, l: Layer, b: int, oy: int, ox: int, oc: int)
    requires ZeroTap(tap) && l.Valid() && l.p.dilationHeight > 0 && l.p.dilationWidth > 0
    requires Inside(l.outShape, b, oy, ox, oc)
    ensures Stuffed(l).Valid()
    ensures Accumulator(tap, l, b, oy, ox, oc) == Accumulator(tap, Stuffed(l), b, oy, ox, oc)
  {
    StuffedValid(l);
    StuffedWindowSum(tap, l, b, oy, ox, oc, l.filterShape.d1);
    hide WindowSum, Layer.Valid, ToInt32;
  }

  // ---------- the plain convolution ----------

  /** Without padding, stride and dilation, filter position (fy, fx) of cell (oy, ox) is over pixel
      (oy + fy, ox + fx). */
  lemma PlainReads(tap: TapFunction, l: Layer, b: int, oy: int, ox: int, oc: int, fy: int, fx: int)
    requires l.Valid() && Inside(l.outShape, b, oy, ox, oc) && 0 <= fy < l.filterShape.d1 && 0 <= fx < l.filterShape.d2
    requires l.p == Params(1, 1, 1, 1, 0, 0)
    ensures PixelSum(tap, l, b, oy, ox, oc, fy, fx) == PixelAt(tap, l, b, oy + fy, ox + fx, oc, fy, fx)
  {
    PixelSumAt(tap, l, b, oy, ox, oc, fy, fx);
    hide PixelSum, PixelAt, Layer.Valid;
  }

  predicate Positive(p: Params) {
    p.strideHeight > 0 && p.strideWidth > 0 && p.dilationHeight > 0 && p.dilationWidth > 0
    && p.padHeight >= 0 && p.padWidth >= 0
  }

  /** The layer without padding, stride and dilation. */
  function Plain(l: Layer, fill: int8, below: nat, right: nat): Layer
    requires l.Valid() && Positive(l.p)
  {
    Unstrided(Stuffed(Padded(l, fill, below, right)))
  }

  /** With TFLite's offsets, the device's accumulators of any layer are those of the plain layer, at every stride-th
      cell. */
  lemma KernelIsPlain(offset: int32, l: Layer, below: nat, right: nat, b: int, oy: int, ox: int, oc: int)
    requires -127 <= offset <= 128 && l.Valid() && Positive(l.p) && Padded(l, -offset, below, right).Valid()
    requires Inside(l.outShape, b, oy, ox, oc)
    ensures var v := Plain(l, -offset, below, right);
      && v.p == Params(1, 1, 1, 1, 0, 0) && v.Valid()
      && Inside(v.outShape, b, oy * l.p.strideHeight, ox * l.p.strideWidth, oc)
      && Accumulator(DeviceTap(ToInt9(offset)), l, b, oy, ox, oc)
         == Accumulator(ExactTap(offset), v, b, oy * l.p.strideHeight, ox * l.p.strideWidth, oc)
  {
    hide Accumulator, Layer.Valid, Array, ToInt9, FlatSize, Spread;
    Sizes(l);
    var padded := Padded(l, -offset, below, right);
    KernelMatchesReference(offset, l, AnyQuantization(l.outShape.d3), b, oy, ox, oc);
    PaddingIsFill(offset, l, below, right, b, oy, ox, oc);
    Sizes(padded);
    DilationIsStuffing(ExactTap(offset), padded, b, oy, ox, oc);
    StrideSkipsCells(ExactTap(offset), Stuffed(padded), b, oy, ox, oc);
  }
}
