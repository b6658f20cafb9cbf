/** The 4x4 systolic array of the CFU (systolic_array, diag_buffer, mask_buffer and PE of cfu.v), cycle by cycle. */
module Systolic {
  import opened Words
  import opened Simd

  /** A bank of registers, by row and column. Only rows and columns below 4 are used. */
  type Bank<T> = (nat, nat) -> T

  /** The registers. Lane l of a diagonal buffer is a shift register of l+1 stages, the newest first; `right`,
      `down` and `maskDown` are what each processing element passes on, `acc` is its sum. */
  datatype Registers = Registers(aDelay: Bank<int8>, bDelay: Bank<int8>, maskDelay: Bank<bool>,
                                 readBefore: bool, clear: bool,
                                 right: Bank<int8>, down: Bank<int8>, maskDown: Bank<bool>, acc: Bank<int32>)

  /** Lane l of a word, counting from the top byte. */
  function TopLane(w: uint32, l: nat): int8
    requires l < 4
  {
    Lane(w, 3 - l)
  }

  // ---------- one clock cycle ----------

  /** What enters the processing element at row i, column j from the left and from the top. */
  function FromLeft(s: Registers, i: nat, j: nat): int8 {
    if j == 0 then s.aDelay(i, i) else s.right(i, j - 1)
  }

  function FromTop(s: Registers, i: nat, j: nat): int8 {
    if i == 0 then s.bDelay(j, j) else s.down(i - 1, j)
  }

  function MaskFromTop(s: Registers, i: nat, j: nat): bool {
    if i == 0 then s.maskDelay(j, j) else s.maskDown(i - 1, j)
  }

  /** The product in a processing element: the offset is added only while the mask travels with the data. */
  function Product(s: Registers, offset: int, i: nat, j: nat): int32 {
    ToInt32((if MaskFromTop(s, i, j) then offset + FromTop(s, i, j) else FromTop(s, i, j)) * FromLeft(s, i, j))
  }

  function Shift<T>(delay: Bank<T>, first: nat -> T): Bank<T> {
    (l: nat, p: nat) => if p == 0 then first(l) else delay(l, p - 1)
  }

  /** What a diagonal buffer takes in: a lane of the word, or zero when nothing is read. */
  function LaneRead(read: bool, w: uint32, l: nat): int8 {
    if read && l < 4 then TopLane(w, l) else 0
  }

  function NextSum(s: Registers, offset: int, i: nat, j: nat): int32 {
    if s.clear then Product(s, offset, i, j) else ToInt32(s.acc(i, j) + Product(s, offset, i, j))
  }

  function Clock(s: Registers, offset: int, read: bool, a: uint32, b: uint32): Registers {
    Registers(
      Shift(s.aDelay, (l: nat) => LaneRead(read, a, l)),
      Shift(s.bDelay, (l: nat) => LaneRead(read, b, l)),
      Shift(s.maskDelay, (l: nat) => read),
      read,
      read && !s.readBefore,
      (i: nat, j: nat) => FromLeft(s, i, j),
      (i: nat, j: nat) => FromTop(s, i, j),
      (i: nat, j: nat) => MaskFromTop(s, i, j),
      (i: nat, j: nat) => NextSum(s, offset, i, j))
  }

  // ---------- one tile: read |a| words, then wait ----------

  /** The registers after t cycles of a tile. While waiting, the memories keep showing the last words. */
  function After(s: Registers, offset: int, a: seq<uint32>, b: seq<uint32>, t: nat): Registers
    requires |a| == |b| > 0
  {
    if t == 0 then s
    else
      var k := Clamp(t - 1, |a| - 1);
      Clock(After(s, offset, a, b, t - 1), offset, t <= |a|, a[k], b[k])
  }

  /** No data is in flight: what the processing elements will see until new words are read is zero. */
  ghost predicate Flushed(s: Registers) {
    InFlight(s, [], [], 0)
  }

  /** Lane l of the word read in cycle t, zero outside the reading cycles. */
  function LaneAt(words: seq<uint32>, t: int, l: nat): int8
    requires l < 4
  {
    if 0 <= t < |words| then TopLane(words[t], l) else 0
  }

  /** Where every byte is at the start of cycle t: row i, column j sees the word read 1 + i + j cycles earlier. */
  ghost predicate InFlight(s: Registers, a: seq<uint32>, b: seq<uint32>, t: nat) {
    && |a| == |b|
    && (forall l: nat, p: nat :: p <= l < 4 ==> s.aDelay(l, p) == LaneAt(a, t - 1 - p, l))
    && (forall l: nat, p: nat :: p <= l < 4 ==> s.bDelay(l, p) == LaneAt(b, t - 1 - p, l))
    && (forall l: nat, p: nat :: p <= l < 4 ==> s.maskDelay(l, p) == (0 <= t - 1 - p < |a|))
    && (forall i: nat, j: nat :: i < 4 && j < 3 ==> s.right(i, j) == LaneAt(a, t - 2 - i - j, i))
    && (forall i: nat, j: nat :: i < 3 && j < 4 ==> s.down(i, j) == LaneAt(b, t - 2 - i - j, j))
    && (forall i: nat, j: nat :: i < 3 && j < 4 ==> s.maskDown(i, j) == (0 <= t - 2 - i - j < |a|))
    && s.readBefore == (0 < t <= |a|)
    && s.clear == (|a| > 0 && t == 1)
  }

  /** The first n terms of the product of lane i of the a words and lane j of the offset b words. */
  function Dot(offset: int, a: seq<uint32>, b: seq<uint32>, i: nat, j: nat, n: nat): int
    requires n <= |a| == |b| && i < 4 && j < 4
  {
    if n == 0 then 0
    else Dot(offset, a, b, i, j, n - 1) + (offset + TopLane(b[n - 1], j)) * TopLane(a[n - 1], i)
  }

  function Clamp(v: int, max: nat): nat {
    if v < 0 then 0 else if v > max then max else v
  }

  /** The sums at the start of cycle t: row i, column j has taken in the words read more than 1 + i + j cycles ago. */
  ghost predicate Summed(s: Registers, offset: int, a: seq<uint32>, b: seq<uint32>, t: nat)
    requires |a| == |b|
  {
    forall i: nat, j: nat :: i < 4 && j < 4 ==>
      s.acc(i, j) == ToInt32(Dot(offset, a, b, i, j, Clamp(t - 1 - i - j, |a|)))
  }

  /** One cycle moves every byte one place on. */
  lemma FlightStep(s: Registers, offset: int, a: seq<uint32>, b: seq<uint32>, t: nat, wa: uint32, wb: uint32)
    requires InFlight(s, a, b, t)
    requires t < |a| ==> wa == a[t] && wb == b[t]
    ensures InFlight(Clock(s, offset, t < |a|, wa, wb), a, b, t + 1)
  {
    hide TopLane, Product;
    Arrivals(s, a, b, t);
  }

  /** What the processing elements see in cycle t. */
  lemma Arrivals(s: Registers, a: seq<uint32>, b: seq<uint32>, t: nat)
    requires InFlight(s, a, b, t)
    ensures forall i: nat, j: nat :: i < 4 && j < 4 ==> FromLeft(s, i, j) == LaneAt(a, t - 1 - i - j, i)
    ensures forall i: nat, j: nat :: i < 4 && j < 4 ==> FromTop(s, i, j) == LaneAt(b, t - 1 - i - j, j)
    ensures forall i: nat, j: nat :: i < 4 && j < 4 ==> MaskFromTop(s, i, j) == (0 <= t - 1 - i - j < |a|)
  {
  }

  /** In cycle t a processing element multiplies the word pair that reaches it, or adds nothing. */
  lemma ProductAt(s: Registers, offset: int, a: seq<uint32>, b: seq<uint32>, t: nat, i: nat, j: nat)
    requires InFlight(s, a, b, t) && i < 4 && j < 4
    ensures var k := t - 1 - i - j;
      Product(s, offset, i, j) == if 0 <= k < |a| then ToInt32((offset + TopLane(b[k], j)) * TopLane(a[k], i)) else 0
  {
    hide TopLane;
    Arrivals(s, a, b, t);
  }

  /** One cycle brings each sum up to date; the clear pulse of cycle 1 starts it from nothing. */
  lemma SumStep(s: Registers, offset: int, a: seq<uint32>, b: seq<uint32>, t: nat, wa: uint32, wb: uint32)
    requires InFlight(s, a, b, t) && |a| > 0 && t >= 1
    requires t >= 2 ==> Summed(s, offset, a, b, t)
    ensures Summed(Clock(s, offset, t < |a|, wa, wb), offset, a, b, t + 1)
  {
    forall i: nat, j: nat | i < 4 && j < 4
      ensures NextSum(s, offset, i, j) == ToInt32(Dot(offset, a, b, i, j, Clamp(t - i - j, |a|)))
    {
      SumStepAt(s, offset, a, b, t, i, j);
    }
  }

  lemma SumStepAt(s: Registers, offset: int, a: seq<uint32>, b: seq<uint32>, t: nat, i: nat, j: nat)
    requires InFlight(s, a, b, t) && |a| > 0 && t >= 1 && i < 4 && j < 4
    requires t >= 2 ==> s.acc(i, j) == ToInt32(Dot(offset, a, b, i, j, Clamp(t - 1 - i - j, |a|)))
    ensures NextSum(s, offset, i, j) == ToInt32(Dot(offset, a, b, i, j, Clamp(t - i - j, |a|)))
  {
    hide TopLane, Product, ToInt32;
    ProductAt(s, offset, a, b, t, i, j);
    var k := t - 1 - i - j;
    WrapZero();
    if 0 <= k < |a| {
      var before, term := Dot(offset, a, b, i, j, k), (offset + TopLane(b[k], j)) * TopLane(a[k], i);
      WrapAbsorbs(before, term);
      WrapAbsorbs(ToInt32(before), term);
    } else {
      WrapTwice(Dot(offset, a, b, i, j, Clamp(k, |a|)));
    }
  }

  lemma WrapZero()
    ensures ToInt32(0) == 0
  {
  }

  lemma WrapTwice(v: int)
    ensures ToInt32(ToInt32(v) + 0) == ToInt32(v)
  {
  }

  /** Throughout a tile the data in flight and, from cycle 2 on, the sums are as the closed forms say. */
  lemma {:induction false} TileProgress(s: Registers, offset: int, a: seq<uint32>, b: seq<uint32>, t: nat)
    requires |a| == |b| > 0 && Flushed(s)
    ensures InFlight(After(s, offset, a, b, t), a, b, t)
    ensures t >= 2 ==> Summed(After(s, offset, a, b, t), offset, a, b, t)
  {
    hide InFlight, Summed, Clock;
    if t == 0 {
      FlushedStarts(s, a, b);
    } else {
      TileProgress(s, offset, a, b, t - 1);
      var r := After(s, offset, a, b, t - 1);
      var k := Clamp(t - 1, |a| - 1);
      var wa, wb := a[k], b[k];
      FlightStep(r, offset, a, b, t - 1, wa, wb);
      if t >= 2 {
        SumStep(r, offset, a, b, t - 1, wa, wb);
      }
    }
  }

  lemma FlushedStarts(s: Registers, a: seq<uint32>, b: seq<uint32>)
    requires |a| == |b| && Flushed(s)
    ensures InFlight(s, a, b, 0)
  {
  }

  /** Reading K words and waiting seven cycles leaves the full product in every processing element, and the array
      ready for the next tile. */
  lemma TileComputesProduct(s: Registers, offset: int, a: seq<uint32>, b: seq<uint32>)
    requires |a| == |b| > 0 && Flushed(s)
    ensures Flushed(After(s, offset, a, b, |a| + 7))
    ensures forall i: nat, j: nat :: i < 4 && j < 4 ==>
      After(s, offset, a, b, |a| + 7).acc(i, j) == ToInt32(Dot(offset, a, b, i, j, |a|))
  {
    hide Clock, TopLane;
    TileProgress(s, offset, a, b, |a| + 7);
    Drained(After(s, offset, a, b, |a| + 7), a, b);
    assert Summed(After(s, offset, a, b, |a| + 7), offset, a, b, |a| + 7);
    hide After;
  }

  lemma Drained(s: Registers, a: seq<uint32>, b: seq<uint32>)
    requires InFlight(s, a, b, |a| + 7) && |a| > 0
    ensures Flushed(s)
  {
  }

  /** Six waiting cycles would not do: the last element would still miss the last term. */
  lemma SixCyclesTooFew(s: Registers, offset: int, a: seq<uint32>, b: seq<uint32>)
    requires |a| == |b| > 0 && Flushed(s)
    ensures After(s, offset, a, b, |a| + 6).acc(3, 3) == ToInt32(Dot(offset, a, b, 3, 3, |a| - 1))
  {
    hide Clock, TopLane;
    TileProgress(s, offset, a, b, |a| + 6);
  }
}
