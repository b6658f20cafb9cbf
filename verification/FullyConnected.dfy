/** The fully connected kernel that hands its matrix product to the CFU (integer_ops/fully_connected.h). */
module FullyConnected {
  import opened Kernels
  import opened Simd
  import opened Systolic
  import opened TileControl
  import opened Placement
  import opened Tpu
  import opened Words

  const MAX_CHANNEL: nat := 64
  const ACCUM_DEPTH: nat := 64

  /** Row lengths rounded up to whole words. */
  function Copied(k: nat): nat {
    (k + 3) / 4 * 4
  }

  /** One call: `batches` rows of k input bytes against m rows of k filter bytes. The weights are copied word by word,
      so up to three bytes after the last row must be readable; they are the end of `filter`. */
  datatype Dense = Dense(batches: nat, m: nat, k: nat, input: seq<int8>, filter: seq<int8>, bias: Bias,
                         multiplier: int32, shift: int32, activation: Activation)
  {
    /** The sizes the kernel's fixed buffers can serve. */
    predicate Valid() {
      && 0 < m <= MAX_CHANNEL && 0 < k <= ACCUM_DEPTH
      && |input| == batches * k && |filter| >= (m - 1) * k + Copied(k) && bias.Covers(m)
    }
  }

  /** Every word of every row of weights is readable. */
  lemma WeightsReadable(d: Dense, oc: nat)
    requires d.Valid() && oc < d.m
    ensures 0 <= oc * d.k && oc * d.k + d.k <= oc * d.k + Copied(d.k) <= |d.filter|
    ensures d.k <= Copied(d.k) <= ACCUM_DEPTH
  {
    MulMono(d.k, oc, d.m - 1);
    MulMono(d.k, 0, oc);
  }

  /** The 32-bit sum of row `oc` of the filter against row b of the input. */
  function Accumulator(offset: int, d: Dense, b: nat, oc: nat): int32
    requires d.Valid() && b < d.batches && oc < d.m
  {
    RowInside(d.k, b, d.batches);
    WeightsReadable(d, oc);
    ToInt32(ChannelSum(ExactTap(offset), d.input, b * d.k, d.filter, oc * d.k, d.k))
  }

  /** The output byte, for sums computed with the given offset. */
  function Cell(offset: int, d: Dense, b: nat, oc: nat): int8
    requires d.Valid() && b < d.batches && oc < d.m
  {
    Finish(d, Accumulator(offset, d, b, oc), oc)
  }

  function Finish(d: Dense, acc: int32, oc: nat): int8
    requires d.bias.Covers(d.m) && oc < d.m
  {
    Requantize(d.activation, d.bias.Added(acc, oc), d.multiplier, d.shift)
  }

  /** pack_data: four bytes, the first highest. */
  function PackData(a: int8, b: int8, c: int8, d: int8): uint32 {
    Pack(d, c, b, a)
  }

  lemma TopLanes(a: int8, b: int8, c: int8, d: int8)
    ensures var w := PackData(a, b, c, d);
      TopLane(w, 0) == a && TopLane(w, 1) == b && TopLane(w, 2) == c && TopLane(w, 3) == d
  {
    LanesOfPack(d, c, b, a);
  }

  // ---------- the blocks in memory ----------

  /** Row r of the block starts with the n bytes from position `at`. */
  ghost predicate RowHolds(block: array2<int8>, r: nat, bytes: seq<int8>, at: int, n: nat)
    requires r < block.Length0 && n <= block.Length1
    reads block
  {
    0 <= at && at + n <= |bytes| && forall x :: 0 <= x < n ==> block[r, x] == bytes[at + x]
  }

  ghost predicate WeightsLoaded(block: array2<int8>, d: Dense, rows: nat)
    requires block.Length0 == MAX_CHANNEL && block.Length1 == ACCUM_DEPTH && rows <= MAX_CHANNEL && d.k <= ACCUM_DEPTH
    reads block
  {
    forall r: nat :: r < rows ==> RowHolds(block, r, d.filter, r * d.k, d.k)
  }

  /** The block starts with the n bytes from position `at`. */
  ghost predicate Holds(block: array<int8>, bytes: seq<int8>, at: int, n: nat)
    requires n <= block.Length
    reads block
  {
    0 <= at && at + n <= |bytes| && forall x :: 0 <= x < n ==> block[x] == bytes[at + x]
  }

  /** The block holds zeros in the rows from `rows` on, and beyond the copied words of the rows before. */
  ghost predicate ZeroPadded(block: array2<int8>, d: Dense, rows: nat)
    requires block.Length0 == MAX_CHANNEL && block.Length1 == ACCUM_DEPTH
    reads block
  {
    forall r, y :: 0 <= r < MAX_CHANNEL && 0 <= y < ACCUM_DEPTH && (rows <= r || Copied(d.k) <= y) ==> block[r, y] == 0
  }

  /** The weights of the call, padded with zero rows and columns to 64 by 64. */
  method LoadWeights(d: Dense) returns (block: array2<int8>)
    requires d.Valid()
    ensures fresh(block) && block.Length0 == MAX_CHANNEL && block.Length1 == ACCUM_DEPTH
    ensures WeightsLoaded(block, d, d.m) && ZeroPadded(block, d, d.m)
  {
    block := new int8[MAX_CHANNEL, ACCUM_DEPTH]((i, j) => 0);
    var oc := 0;
    while oc < d.m
      invariant 0 <= oc <= d.m && WeightsLoaded(block, d, oc) && ZeroPadded(block, d, oc)
    {
      CopyRow(block, d, oc);
      oc := oc + 1;
    }
  }

  /** Copies a row of weights. */
  method CopyRow(block: array2<int8>, d: Dense, oc: nat)
    requires d.Valid() && block.Length0 == MAX_CHANNEL && block.Length1 == ACCUM_DEPTH && oc < d.m
    requires WeightsLoaded(block, d, oc) && ZeroPadded(block, d, oc)
    modifies block
    ensures WeightsLoaded(block, d, oc + 1) && ZeroPadded(block, d, oc + 1)
  {
    WeightsReadable(d, oc);
    hide Copied;
    CopyWords(block, d.filter, oc * d.k, oc, d.k);
    forall r: nat | r < oc ensures RowHolds(block, r, d.filter, r * d.k, d.k) {
      assert old(RowHolds(block, r, d.filter, r * d.k, d.k));
    }
  }

  /** Copies k bytes, four at a time. */
  method CopyWords(block: array2<int8>, filter: seq<int8>, base: nat, oc: nat, k: nat)
    requires oc < block.Length0 && Copied(k) <= block.Length1 && base + Copied(k) <= |filter|
    modifies block
    ensures forall y :: 0 <= y < k && y < block.Length1 ==> block[oc, y] == filter[base + y]
    ensures forall r, y :: 0 <= r < block.Length0 && 0 <= y < block.Length1 && (r != oc || Copied(k) <= y) ==>
      block[r, y] == old(block[r, y])
  {
    ghost var end := Copied(k);
    var x := 0;
    while x < k
      invariant 0 <= x <= end && x % 4 == 0 && (x < end ==> x < k)
      invariant forall y :: 0 <= y < x ==> block[oc, y] == filter[base + y]
      invariant forall r, y :: 0 <= r < block.Length0 && 0 <= y < block.Length1 && (r != oc || end <= y) ==>
        block[r, y] == old(block[r, y])
    {
      LastWord(k, x);
      CopyWord(block, filter, base, oc, x);
      x := x + 4;
    }
  }

  /** A word that starts inside a row is the last one exactly when the next one starts beyond it. */
  lemma LastWord(k: nat, x: nat)
    requires x % 4 == 0 && x < k
    ensures x + 4 <= Copied(k) && (x + 4 < Copied(k) ==> x + 4 < k)
  {
  }

  method CopyWord(block: array2<int8>, filter: seq<int8>, base: nat, oc: nat, x: nat)
    requires oc < block.Length0 && x + 4 <= block.Length1 && base + x + 4 <= |filter|
    modifies block
    ensures forall r, y :: 0 <= r < block.Length0 && 0 <= y < block.Length1 ==>
      block[r, y] == if r == oc && x <= y < x + 4 then filter[base + y] else old(block[r, y])
  {
    var p := base + x;
    block[oc, x] := filter[p];
    block[oc, x + 1] := filter[p + 1];
    block[oc, x + 2] := filter[p + 2];
    block[oc, x + 3] := filter[p + 3];
  }

  method LoadInput(d: Dense, b: nat) returns (block: array<int8>)
    requires d.Valid() && b < d.batches
    ensures fresh(block) && block.Length == ACCUM_DEPTH && Holds(block, d.input, b * d.k, d.k)
  {
    RowInside(d.k, b, d.batches);
    var at := b * d.k;
    block := new int8[ACCUM_DEPTH](i => 0);
    for x := 0 to d.k
      invariant forall y :: 0 <= y < x ==> block[y] == d.input[at + y]
    {
      block[x] := d.input[at + x];
    }
  }

  // ---------- to and from the device ----------

  /** The word of column x of rows 4t to 4t+3. */
  function ColumnWord(block: array2<int8>, t: nat, x: nat): uint32
    requires 4 * t + 4 <= block.Length0 && x < block.Length1
    reads block
  {
    PackData(block[4 * t, x], block[4 * t + 1, x], block[4 * t + 2, x], block[4 * t + 3, x])
  }

  /** The words of the first `tiles` row tiles are in the buffer, tile after tile. */
  ghost predicate SentTiles(a: seq<uint32>, block: array2<int8>, k: nat, tiles: nat)
    requires |a| == DEPTH && 4 * tiles <= block.Length0 && k <= block.Length1
    reads block
  {
    forall t: nat :: t < tiles ==> SentTile(a, block, k, t)
  }

  ghost predicate SentTile(a: seq<uint32>, block: array2<int8>, k: nat, t: nat)
    requires |a| == DEPTH && 4 * t + 4 <= block.Length0 && k <= block.Length1
    reads block
  {
    t * k + k <= DEPTH && forall x :: 0 <= x < k ==> a[t * k + x] == ColumnWord(block, t, x)
  }

  method SendBlockA(unit: MatrixUnit, block: array2<int8>, m: nat, k: nat)
    requires unit.Valid() && block.Length0 == MAX_CHANNEL && block.Length1 == ACCUM_DEPTH
    requires 0 < m <= MAX_CHANNEL && 0 < k <= ACCUM_DEPTH
    modifies unit.bufferA
    ensures unit.Valid() && SentTiles(unit.bufferA[..], block, k, Tiles(m))
  {
    hide AtRest, SentTile;
    var depth := 0;
    var row := 0;
    while row < m
      invariant 0 <= row <= m + 3 && row % 4 == 0 && depth == row / 4 * k && unit.Valid()
      invariant SentTiles(unit.bufferA[..], block, k, row / 4)
    {
      ghost var t, before := row / 4, unit.bufferA[..];
      MulMono(k, t + 1, 16);
      depth := SendTile(unit, block, k, row, depth);
      EarlierTilesKept(before, unit.bufferA[..], block, k, t);
      row := row + 4;
      assert row / 4 == t + 1;
    }
  }

  /** Four rows of weights, column by column. */
  method SendTile(unit: MatrixUnit, block: array2<int8>, k: nat, row: nat, start: nat) returns (depth: nat)
    requires unit.Valid() && block.Length1 == ACCUM_DEPTH && k <= ACCUM_DEPTH
    requires row % 4 == 0 && row + 4 <= block.Length0 && start == row / 4 * k && start + k <= DEPTH
    modifies unit.bufferA
    ensures unit.Valid() && depth == start + k
    ensures SentTile(unit.bufferA[..], block, k, row / 4)
    ensures unit.bufferA[..start] == old(unit.bufferA[..start])
  {
    hide AtRest, ColumnWord;
    depth := SendColumns(unit, block, k, row, start);
  }

  /** The first k columns of four rows, from position `start` of the buffer on. */
  method SendColumns(unit: MatrixUnit, block: array2<int8>, k: nat, row: nat, start: nat) returns (depth: nat)
    requires unit.Valid() && k <= block.Length1 && row % 4 == 0 && row + 4 <= block.Length0 && start + k <= DEPTH
    modifies unit.bufferA
    ensures unit.Valid() && depth == start + k
    ensures forall y :: 0 <= y < k ==> unit.bufferA[start + y] == ColumnWord(block, row / 4, y)
    ensures unit.bufferA[..start] == old(unit.bufferA[..start])
  {
    hide AtRest, ColumnWord, PackData;
    depth := start;
    for x := 0 to k
      invariant unit.Valid() && depth == start + x
      invariant forall y :: 0 <= y < x ==> unit.bufferA[start + y] == ColumnWord(block, row / 4, y)
      invariant unit.bufferA[..start] == old(unit.bufferA[..start])
    {
      var packed := PackData(block[row, x], block[row + 1, x], block[row + 2, x], block[row + 3, x]);
      ColumnWordIs(block, row, x);
      unit.WriteA(packed, depth);
      depth := depth + 1;
    }
  }

  lemma ColumnWordIs(block: array2<int8>, row: nat, x: nat)
    requires row % 4 == 0 && row + 4 <= block.Length0 && x < block.Length1
    ensures PackData(block[row, x], block[row + 1, x], block[row + 2, x], block[row + 3, x])
         == ColumnWord(block, row / 4, x)
  {
    hide PackData;
    assert 4 * (row / 4) == row;
  }

  lemma EarlierTilesKept(before: seq<uint32>, after: seq<uint32>, block: array2<int8>, k: nat, t: nat)
    requires |before| == |after| == DEPTH && 4 * t + 4 <= block.Length0 && k <= block.Length1
    requires SentTiles(before, block, k, t) && t * k <= DEPTH && before[..t * k] == after[..t * k]
    requires SentTile(after, block, k, t)
    ensures SentTiles(after, block, k, t + 1)
  {
    hide SentTile;
    forall t': nat | t' < t + 1 ensures SentTile(after, block, k, t') {
      if t' < t {
        MulMono(k, t' + 1, t);
        TileKept(before, after, block, k, t', t * k);
      }
    }
  }

  lemma TileKept(before: seq<uint32>, after: seq<uint32>, block: array2<int8>, k: nat, t: nat, kept: nat)
    requires |before| == |after| == DEPTH && 4 * t + 4 <= block.Length0 && k <= block.Length1
    requires t * k + k <= kept <= DEPTH && before[..kept] == after[..kept]
    requires SentTile(before, block, k, t)
    ensures SentTile(after, block, k, t)
  {
  }

  ghost predicate SentInput(words: seq<uint32>, block: array<int8>, k: nat)
    requires |words| == DEPTH && block.Length == ACCUM_DEPTH && k <= ACCUM_DEPTH
    reads block
  {
    forall x :: 0 <= x < k ==> words[x] == PackData(block[x], 0, 0, 0)
  }

  method SendBlockB(unit: MatrixUnit, block: array<int8>, k: nat)
    requires unit.Valid() && block.Length == ACCUM_DEPTH && k <= ACCUM_DEPTH
    modifies unit.bufferB
    ensures unit.Valid() && SentInput(unit.bufferB[..], block, k)
  {
    hide AtRest, PackData;
    for x := 0 to k
      invariant unit.Valid()
      invariant forall y :: 0 <= y < x ==> unit.bufferB[y] == PackData(block[y], 0, 0, 0)
    {
      var packed := PackData(block[x], 0, 0, 0);
      unit.WriteB(packed, x);
    }
  }

  method ReceiveBlockC(unit: MatrixUnit, m: nat) returns (block: array<int32>)
    requires unit.Valid() && m <= MAX_CHANNEL
    ensures fresh(block) && block.Length == MAX_CHANNEL
    ensures forall r :: 0 <= r < m ==> block[r] == unit.bufferC[r][0]
  {
    hide AtRest;
    block := new int32[MAX_CHANNEL](i => 0);
    for r := 0 to m
      invariant forall y :: 0 <= y < r ==> block[y] == unit.bufferC[y][0]
    {
      block[r] := unit.ReadC(0, r);
    }
  }

  // ---------- the kernel ----------

  /** The unit's product of the sent blocks is the channel sum of the original rows. */
  lemma {:induction false} DotIsChannelSum(offset: int, a: seq<uint32>, b: seq<uint32>, lane: nat,
                                           input: seq<int8>, i: int, filter: seq<int8>, j: int, n: nat)
    requires n <= |a| == |b| && lane < 4
    requires 0 <= i && i + |a| <= |input| && 0 <= j && j + |a| <= |filter|
    requires forall x :: 0 <= x < |a| ==> TopLane(a[x], lane) == filter[j + x] && TopLane(b[x], 0) == input[i + x]
    ensures Dot(offset, a, b, lane, 0, n) == ChannelSum(ExactTap(offset), input, i, filter, j, n)
  {
    hide TopLane;
    if n > 0 {
      DotIsChannelSum(offset, a, b, lane, input, i, filter, j, n - 1);
    }
  }

  /** The result buffer holds the sums of one batch. */
  ghost predicate HoldsSums(c: seq<seq<int32>>, offset: int, d: Dense, b: nat)
    requires d.Valid() && b < d.batches && |c| == DEPTH
  {
    forall oc: nat :: oc < d.m ==> |c[oc]| == 4 && c[oc][0] == Accumulator(offset, d, b, oc)
  }

  /** Lane r of the words sent for row tile t is row 4t+r of the weights. */
  lemma WeightLane(weights: array2<int8>, a: seq<uint32>, t: nat, r: nat, k: nat, x: nat, bytes: seq<int8>, at: int)
    requires r < 4 && 4 * t + 4 <= weights.Length0 && x < k <= weights.Length1
    requires |a| == DEPTH
    requires SentTile(a, weights, k, t) && RowHolds(weights, 4 * t + r, bytes, at, k)
    ensures 0 <= at + x < |bytes| && TopLane(TileWords(a, k, t)[x], r) == bytes[at + x]
  {
    hide TopLane, ColumnWord, TileWords, SentTile;
    ColumnLane(weights, t, x, r);
    SentWord(a, weights, k, t, x);
  }

  lemma SentWord(a: seq<uint32>, block: array2<int8>, k: nat, t: nat, x: nat)
    requires |a| == DEPTH && 4 * t + 4 <= block.Length0 && x < k <= block.Length1
    requires SentTile(a, block, k, t)
    ensures TileWords(a, k, t)[x] == ColumnWord(block, t, x)
  {
    hide ColumnWord;
    TileWordAt(a, k, t, x);
  }

  lemma ColumnLane(block: array2<int8>, t: nat, x: nat, r: nat)
    requires 4 * t + 4 <= block.Length0 && x < block.Length1 && r < 4
    ensures TopLane(ColumnWord(block, t, x), r) == block[4 * t + r, x]
  {
    hide TopLane, PackData;
    TopLanes(block[4 * t, x], block[4 * t + 1, x], block[4 * t + 2, x], block[4 * t + 3, x]);
  }

  lemma TileWordAt(buffer: seq<uint32>, k: nat, t: nat, x: nat)
    requires |buffer| == DEPTH && t * k + k <= DEPTH && x < k
    ensures 0 <= t * k && TileWords(buffer, k, t)[x] == buffer[t * k + x]
  {
    MulMono(k, 0, t);
    assert TileStart(k, t) + x == t * k + x;
  }

  /** Lane 0 of the words sent for the input is the input. */
  lemma InputLane(inputs: array<int8>, w: seq<uint32>, k: nat, x: nat, bytes: seq<int8>, at: int)
    requires |w| == DEPTH && inputs.Length == ACCUM_DEPTH && x < k <= ACCUM_DEPTH
    requires Holds(inputs, bytes, at, k) && SentInput(w, inputs, k)
    ensures 0 <= at + x < |bytes| && TopLane(TileWords(w, k, 0)[x], 0) == bytes[at + x]
  {
    hide TopLane, PackData;
    TileWordAt(w, k, 0, x);
    TopLanes(inputs[x], 0, 0, 0);
  }

  /** The unit's product entry for row oc is the sum over the bytes behind the sent blocks. */
  lemma EntryIsSum(weights: array2<int8>, inputs: array<int8>, a: seq<uint32>, w: seq<uint32>, offset: int, k: nat,
                   oc: nat, input: seq<int8>, i: int, filter: seq<int8>, j: int)
    requires |a| == |w| == DEPTH && k <= ACCUM_DEPTH && oc < MAX_CHANNEL
    requires weights.Length0 == MAX_CHANNEL && weights.Length1 == ACCUM_DEPTH && inputs.Length == ACCUM_DEPTH
    requires RowHolds(weights, oc, filter, j, k) && Holds(inputs, input, i, k)
    requires SentTile(a, weights, k, oc / 4) && SentInput(w, inputs, k)
    ensures 0 <= i && i + k <= |input| && 0 <= j && j + k <= |filter|
    ensures Entry(a, w, offset, k, oc, 0) == ToInt32(ChannelSum(ExactTap(offset), input, i, filter, j, k))
  {
    hide TopLane, ToInt32, Dot, ChannelSum, SentTile, SentInput, TileWords;
    var t, r := oc / 4, oc % 4;
    assert 4 * t + r == oc;
    var a', w' := TileWords(a, k, t), TileWords(w, k, 0);
    forall x | 0 <= x < k ensures TopLane(a'[x], r) == filter[j + x] && TopLane(w'[x], 0) == input[i + x] {
      WeightLane(weights, a, t, r, k, x, filter, j);
      InputLane(inputs, w, k, x, input, i);
    }
    DotIsChannelSum(offset, a', w', r, input, i, filter, j, k);
  }

  lemma PlacedIsSum(d: Dense, b: nat, weights: array2<int8>, inputs: array<int8>, a: seq<uint32>, w: seq<uint32>,
                    c: seq<seq<int32>>, offset: int, oc: nat)
    requires d.Valid() && b < d.batches && oc < d.m && |a| == |w| == |c| == DEPTH
    requires weights.Length0 == MAX_CHANNEL && weights.Length1 == ACCUM_DEPTH && inputs.Length == ACCUM_DEPTH
    requires RowHolds(weights, oc, d.filter, oc * d.k, d.k) && Holds(inputs, d.input, b * d.k, d.k)
    requires SentTile(a, weights, d.k, oc / 4) && SentInput(w, inputs, d.k)
    requires Placed(a, w, c, offset, d.k, d.m, oc, 0)
    ensures |c[oc]| == 4 && c[oc][0] == Accumulator(offset, d, b, oc)
  {
    hide RowHolds, Holds, SentTile, SentInput, Entry, ToInt32, ChannelSum;
    EntryIsSum(weights, inputs, a, w, offset, d.k, oc, d.input, b * d.k, d.filter, oc * d.k);
    assert Place(d.m, oc, 0) == oc;
  }

  /** The send, configure, run sequence for one batch. */
  method RunBatch(unit: MatrixUnit, d: Dense, inputOffset: int32, b: nat)
    requires unit.Valid() && d.Valid() && b < d.batches
    modifies unit, unit.bufferA, unit.bufferB, unit.bufferC
    ensures unit.Valid() && HoldsSums(unit.bufferC[..], inputOffset % 0x100, d, b)
  {
    hide AtRest, Accumulator, SentTile, SentInput, RowHolds, Holds, Placed;
    var inputs := LoadInput(d, b);
    var weights := LoadWeights(d);
    SendBlockA(unit, weights, d.m, d.k);
    SendBlockB(unit, inputs, d.k);
    SizesFit(d.m, d.k, inputOffset % 0x100);
    unit.Run(d.k, d.m, 1, inputOffset);
    forall oc: nat | oc < d.m
      ensures |unit.bufferC[oc]| == 4 && unit.bufferC[oc][0] == Accumulator(inputOffset % 0x100, d, b, oc)
    {
      assert oc / 4 < Tiles(d.m);
      PlacedIsSum(d, b, weights, inputs, unit.bufferA[..], unit.bufferB[..], unit.bufferC[..], inputOffset % 0x100, oc);
    }
  }

  lemma SizesFit(m: nat, k: nat, offset: nat)
    requires 0 < m <= MAX_CHANNEL
    ensures RowsFit(Command(k, m, 1, offset))
  {
    assert Tiles(m) <= 16;
  }

  /** Where the output byte of batch b and channel oc goes. */
  function Position(d: Dense, b: nat, oc: nat): nat {
    oc + d.m * b
  }

  lemma PositionIs(d: Dense, b: nat, oc: nat)
    ensures Position(d, b, oc) == oc + d.m * b
  {
  }

  lemma PositionUnique(d: Dense, b: nat, oc: nat, b': nat, oc': nat)
    requires oc < d.m && oc' < d.m && Position(d, b, oc) == Position(d, b', oc')
    ensures b == b' && oc == oc'
  {
    MulMono(d.m, b + 1, b');
    MulMono(d.m, b' + 1, b);
  }

  lemma PositionInside(d: Dense, b: nat, oc: nat)
    requires oc < d.m && b < d.batches
    ensures Position(d, b, oc) < d.batches * d.m
  {
    MulMono(d.m, b + 1, d.batches);
  }

  /** The outputs of the batches before b, and of the first n channels of batch b, are in place. */
  ghost predicate Written(out: seq<int8>, offset: int, d: Dense, b: nat, n: nat)
    requires d.Valid() && |out| == d.batches * d.m
  {
    forall b': nat, oc: nat :: b' < d.batches && oc < d.m && (b' < b || (b' == b && oc < n)) ==>
      Position(d, b', oc) < |out| && out[Position(d, b', oc)] == Cell(offset, d, b', oc)
  }

  lemma WrittenStep(out: seq<int8>, offset: int, d: Dense, b: nat, n: nat)
    requires d.Valid() && |out| == d.batches * d.m && b < d.batches && n < d.m
    requires Written(out, offset, d, b, n)
    ensures Position(d, b, n) < |out|
    ensures Written(out[Position(d, b, n) := Cell(offset, d, b, n)], offset, d, b, n + 1)
  {
    hide Position, Cell;
    PositionInside(d, b, n);
    forall b': nat, oc: nat | b' < d.batches && oc < d.m && Position(d, b', oc) == Position(d, b, n)
      ensures b' == b && oc == n
    {
      PositionUnique(d, b', oc, b, n);
    }
  }

  /** The fully connected kernel. The unit's offset port keeps eight unsigned bits of the input offset. */
  method FullyConnected(unit: MatrixUnit, d: Dense, inputOffset: int32, output: array<int8>)
    requires unit.Valid() && d.Valid() && output.Length == d.batches * d.m
    modifies unit, unit.bufferA, unit.bufferB, unit.bufferC, output
    ensures forall b: nat, oc: nat :: b < d.batches && oc < d.m ==>
      Position(d, b, oc) < output.Length && output[Position(d, b, oc)] == Cell(inputOffset % 0x100, d, b, oc)
    ensures 0 <= inputOffset < 0x100 ==> forall b: nat, oc: nat :: b < d.batches && oc < d.m ==>
      Position(d, b, oc) < output.Length && output[Position(d, b, oc)] == Cell(inputOffset, d, b, oc)
  {
    hide AtRest, Cell, Position, HoldsSums;
    ghost var offset := inputOffset % 0x100;
    for b := 0 to d.batches
      invariant unit.Valid() && Written(output[..], offset, d, b, 0)
    {
      RunBatch(unit, d, inputOffset, b);
      var sums := ReceiveBlockC(unit, d.m);
      FinishBatch(unit, d, inputOffset, b, sums, output);
    }
  }

  method FinishOutput(d: Dense, acc: int32, oc: nat) returns (value: int8)
    requires d.bias.Covers(d.m) && oc < d.m
    ensures value == Finish(d, acc, oc)
  {
    value := FinishSum(d.activation, d.bias, oc, acc, d.multiplier, d.shift);
  }

  method FinishBatch(ghost unit: MatrixUnit, d: Dense, ghost inputOffset: int32, b: nat, sums: array<int32>,
                     output: array<int8>)
    requires d.Valid() && b < d.batches && output.Length == d.batches * d.m && sums.Length == MAX_CHANNEL
    requires unit.bufferC.Length == DEPTH && HoldsSums(unit.bufferC[..], inputOffset % 0x100, d, b)
    requires forall r :: 0 <= r < d.m ==> |unit.bufferC[r]| == 4 && sums[r] == unit.bufferC[r][0]
    requires Written(output[..], inputOffset % 0x100, d, b, 0)
    modifies output
    ensures Written(output[..], inputOffset % 0x100, d, b + 1, 0)
  {
    hide Accumulator, Requantize, Position;
    ghost var offset := inputOffset % 0x100;
    for oc := 0 to d.m
      invariant Written(output[..], offset, d, b, oc)
    {
      WrittenStep(output[..], offset, d, b, oc);
      ghost var before := output[..];
      var value := FinishOutput(d, sums[oc], oc);
      PositionIs(d, b, oc);
      output[oc + d.m * b] := value;
      assert output[..] == before[Position(d, b, oc) := Cell(offset, d, b, oc)];
    }
  }

  // ---------- the kernel against exact arithmetic ----------

  /** The scalar loop for one output, which wraps after every term. */
  method ScalarSum(d: Dense, offset: int32, b: nat, oc: nat) returns (acc: int32)
    requires d.Valid() && b < d.batches && oc < d.m
    ensures acc == Accumulator(offset, d, b, oc)
  {
    RowInside(d.k, b, d.batches);
    WeightsReadable(d, oc);
    acc := ScalarLoop(d.input, b * d.k, d.filter, oc * d.k, d.k, offset);
  }

  method ScalarLoop(input: seq<int8>, i: int, filter: seq<int8>, j: int, k: nat, offset: int32) returns (acc: int32)
    requires 0 <= i && i + k <= |input| && 0 <= j && j + k <= |filter|
    ensures acc == ToInt32(ChannelSum(ExactTap(offset), input, i, filter, j, k))
  {
    hide ToInt32;
    acc := 0;
    WrapZero();
    for x := 0 to k
      invariant acc == ToInt32(ChannelSum(ExactTap(offset), input, i, filter, j, x))
    {
      var term := (input[i + x] + offset) * filter[j + x];
      ghost var before := ChannelSum(ExactTap(offset), input, i, filter, j, x);
      assert ChannelSum(ExactTap(offset), input, i, filter, j, x + 1) == before + term;
      WrapAbsorbs(before, term);
      acc := ToInt32(acc + term);
    }
  }

  ghost predicate MatchesOn(offset: int32, d: Dense) {
    d.Valid() ==> forall b: nat, oc: nat :: b < d.batches && oc < d.m ==>
      Accumulator(offset % 0x100, d, b, oc) == Accumulator(offset, d, b, oc)
  }

  /** The sums are right on all calls exactly for the offsets from 0 to 255: a negative offset loses its sign on the
      way. */
  lemma KernelExactIff(offset: int32)
    ensures (forall d: Dense :: MatchesOn(offset, d)) <==> 0 <= offset < 0x100
  {
    if 0 <= offset < 0x100 {
      assert offset % 0x100 == offset;
    } else {
      var d := OneWeight();
      OneWeightAccumulator(offset % 0x100);
      OneWeightAccumulator(offset);
      ReducedOffsetDiffers(offset);
      assert !MatchesOn(offset, d);
    }
  }

  lemma ReducedOffsetDiffers(offset: int32)
    requires !(0 <= offset < 0x100)
    ensures ToInt32(offset % 0x100) != ToInt32(offset)
  {
  }

  /** One row of weights 1, 0, 0, 0 against an input of zeros. */
  function OneWeight(): Dense {
    Dense(1, 1, 4, [0, 0, 0, 0], [1, 0, 0, 0], NoBias, 0, 0,
          Activation(0, -0x80, 0x7F, (acc: int32, m: int32, s: int32) => acc))
  }

  lemma OneWeightAccumulator(offset: int)
    ensures OneWeight().Valid() && Accumulator(offset, OneWeight(), 0, 0) == ToInt32(offset)
  {
  }
}
