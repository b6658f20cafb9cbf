/** What the matrix unit leaves in its result memory, and when that is the product of the buffered matrices. */
module Placement {
  import opened Words
  import opened Simd
  import opened Systolic
  import opened TileControl

  /** The k words of tile t of a buffer. */
  function TileWords(buffer: seq<uint32>, k: nat, t: nat): (words: seq<uint32>)
    requires |buffer| == DEPTH
    ensures |words| == k
  {
    seq(k, x requires 0 <= x < k => buffer[(TileStart(k, t) + x) % DEPTH])
  }

  /** Row r, column c of the product of the buffered matrices, k terms deep. */
  function Entry(a: seq<uint32>, b: seq<uint32>, offset: int, k: nat, r: nat, c: nat): int32
    requires |a| == |b| == DEPTH
  {
    ToInt32(Dot(offset, TileWords(a, k, r / 4), TileWords(b, k, c / 4), r % 4, c % 4, k))
  }

  // ---------- the result memory, tile by tile ----------

  /** The sixteen sums of a tile. */
  function TileBank(a: seq<uint32>, b: seq<uint32>, size: Command, mTile: nat, nTile: nat): Bank<int32> {
    (i: nat, j: nat) =>
      if |a| == |b| == DEPTH then Entry(a, b, size.offset, size.k, 4 * mTile + i % 4, 4 * nTile + j % 4) else 0
  }

  /** One tile's rows on their way. */
  function TilePending(a: seq<uint32>, b: seq<uint32>, size: Command, mTile: nat, nTile: nat): Pending {
    Pending(TileRow(size.m, mTile, nTile), TileBank(a, b, size, mTile, nTile))
  }

  /** The result memory when the tiles before tile (mTile, nTile) have been written, column of tiles by column. */
  function AfterTiles(c0: seq<seq<int32>>, a: seq<uint32>, b: seq<uint32>, size: Command, mTile: nat, nTile: nat)
    : (result: seq<seq<int32>>)
    requires |c0| == |a| == |b| == DEPTH
    ensures |result| == DEPTH
    decreases nTile, mTile
  {
    if mTile > 0 then
      WithRows(AfterTiles(c0, a, b, size, mTile - 1, nTile), TilePending(a, b, size, mTile - 1, nTile), 4)
    else if nTile > 0 && Tiles(size.m) > 0 then
      var last := Tiles(size.m) - 1;
      WithRows(AfterTiles(c0, a, b, size, last, nTile - 1), TilePending(a, b, size, last, nTile - 1), 4)
    else c0
  }

  /** What a run leaves in the result memory, for all sizes. */
  function RunResult(c0: seq<seq<int32>>, a: seq<uint32>, b: seq<uint32>, size: Command): (result: seq<seq<int32>>)
    requires |c0| == |a| == |b| == DEPTH
    ensures |result| == DEPTH
  {
    AfterTiles(c0, a, b, size, 0, Tiles(size.n))
  }

  lemma AfterTile(c0: seq<seq<int32>>, a: seq<uint32>, b: seq<uint32>, size: Command, mTile: nat, nTile: nat)
    requires |c0| == |a| == |b| == DEPTH && mTile < Tiles(size.m)
    ensures AfterTiles(c0, a, b, size, NextRowTile(size, mTile), NextColumnTile(size, mTile, nTile))
         == WithRows(AfterTiles(c0, a, b, size, mTile, nTile), TilePending(a, b, size, mTile, nTile), 4)
  {
    hide WithRows, TilePending, Tiles;
  }

  /** Only the sixteen sums of a tile are written. */
  lemma SameSums(base: seq<seq<int32>>, at: nat, s: Bank<int32>, t: Bank<int32>)
    requires |base| == DEPTH && forall i: nat, j: nat :: i < 4 && j < 4 ==> s(i, j) == t(i, j)
    ensures WithRows(base, Pending(at, s), 4) == WithRows(base, Pending(at, t), 4)
  {
    hide WithRows, RowsAfter;
    var u, v := WithRows(base, Pending(at, s), 4), WithRows(base, Pending(at, t), 4);
    forall x | 0 <= x < DEPTH ensures u[x] == v[x] {
      var d := RowsAfter(x, at);
      if d < 4 {
        assert SumRow(s, d) == SumRow(t, d);
      }
    }
  }

  // ---------- places ----------

  /** The result row that holds row r, column c: columns are kept four to a row, m rows to a column tile. */
  function Place(m: nat, r: nat, c: nat): nat {
    c / 4 * m + r
  }

  /** The product entry at row r, column c is in its place. */
  ghost predicate Placed(a: seq<uint32>, b: seq<uint32>, result: seq<seq<int32>>, offset: int, k: nat, m: nat,
                         r: int, c: int)
  {
    && 0 <= r && 0 <= c && |a| == |b| == DEPTH
    && Place(m, r, c) < |result| && |result[Place(m, r, c)]| == 4
    && result[Place(m, r, c)][c % 4] == Entry(a, b, offset, k, r, c)
  }

  /** The entries whose place lies before `at` are in their places. */
  ghost predicate AllPlaced(a: seq<uint32>, b: seq<uint32>, result: seq<seq<int32>>, offset: int, k: nat, m: nat,
                            nTiles: nat, at: int)
  {
    forall r, c :: 0 <= r < m && 0 <= c < 4 * nTiles && Place(m, r, c) < at ==> Placed(a, b, result, offset, k, m, r, c)
  }

  /** Every entry of the product is in its place. */
  ghost predicate HoldsProduct(a: seq<uint32>, b: seq<uint32>, result: seq<seq<int32>>, size: Command) {
    forall r, c :: 0 <= r < size.m && 0 <= c < size.n ==> Placed(a, b, result, size.offset, size.k, size.m, r, c)
  }

  /** The rows of the last tile, and with it those of all tiles, end inside the result memory. */
  predicate RowsFit(size: Command) {
    (Tiles(size.n) - 1) * size.m + 4 * Tiles(size.m) <= DEPTH
  }

  lemma TileFits(size: Command, mTile: nat, nTile: nat)
    requires RowsFit(size) && mTile < Tiles(size.m) && nTile < Tiles(size.n)
    ensures TileRow(size.m, mTile, nTile) + 4 <= DEPTH
  {
    MulMono(size.m, nTile, Tiles(size.n) - 1);
  }

  /** Only the entries of one tile have places between that tile's first row and the next tile's. */
  lemma PlaceInTile(m: nat, mTile: nat, nTile: nat, r: nat, c: nat)
    requires r < m && mTile < Tiles(m)
    requires TileRow(m, mTile, nTile) <= Place(m, r, c) < NextPlace(m, mTile, nTile)
    ensures c / 4 == nTile && r / 4 == mTile && Place(m, r, c) == TileRow(m, mTile, nTile) + r % 4
  {
    MulMono(m, nTile + 1, c / 4);
    MulMono(m, c / 4 + 1, nTile);
    NextPlaceBounds(m, mTile, nTile);
    SameColumnTile(m, mTile, nTile, r, c / 4);
  }

  lemma SameColumnTile(m: nat, mTile: nat, nTile: nat, r: nat, t: nat)
    requires r < m && mTile < Tiles(m)
    requires t >= nTile + 1 ==> t * m >= (nTile + 1) * m
    requires t + 1 <= nTile ==> (t + 1) * m <= nTile * m
    requires nTile * m + mTile * 4 <= t * m + r < (nTile + 1) * m
    ensures t == nTile
  {
  }

  /** The first row of the tile that follows. */
  function NextPlace(m: nat, mTile: nat, nTile: nat): nat {
    if mTile == Tiles(m) - 1 then (nTile + 1) * m else nTile * m + (mTile + 1) * 4
  }

  lemma NextPlaceBounds(m: nat, mTile: nat, nTile: nat)
    requires mTile < Tiles(m)
    ensures TileRow(m, mTile, nTile) < NextPlace(m, mTile, nTile) <= TileRow(m, mTile, nTile) + 4
    ensures NextPlace(m, mTile, nTile) <= (nTile + 1) * m
  {
  }

  lemma NextTileRow(size: Command, mTile: nat, nTile: nat)
    ensures NextPlace(size.m, mTile, nTile)
         == TileRow(size.m, NextRowTile(size, mTile), NextColumnTile(size, mTile, nTile))
  {
  }

  /** Writing a tile keeps the entries placed before it and places its own, though its four rows may spill over the
      next tile's. */
  lemma TileStep(a: seq<uint32>, b: seq<uint32>, before: seq<seq<int32>>, size: Command, mTile: nat, nTile: nat)
    requires |a| == |b| == |before| == DEPTH && mTile < Tiles(size.m) && nTile < Tiles(size.n)
    requires TileRow(size.m, mTile, nTile) + 4 <= DEPTH
    requires AllPlaced(a, b, before, size.offset, size.k, size.m, Tiles(size.n), TileRow(size.m, mTile, nTile))
    ensures AllPlaced(a, b, WithRows(before, TilePending(a, b, size, mTile, nTile), 4), size.offset, size.k, size.m,
                      Tiles(size.n), NextPlace(size.m, mTile, nTile))
  {
    hide Place, NextPlace, Placed, Tiles, TilePending, WithRows, TileRow;
    var at, m := TileRow(size.m, mTile, nTile), size.m;
    var after := WithRows(before, TilePending(a, b, size, mTile, nTile), 4);
    NextPlaceBounds(m, mTile, nTile);
    forall r, c | 0 <= r < m && 0 <= c < 4 * Tiles(size.n) && Place(m, r, c) < NextPlace(m, mTile, nTile)
      ensures Placed(a, b, after, size.offset, size.k, m, r, c)
    {
      if Place(m, r, c) < at {
        KeepsPlaced(a, b, before, size, mTile, nTile, r, c);
      } else {
        PlaceInTile(m, mTile, nTile, r, c);
        TilePlaced(a, b, before, size, r, c);
      }
    }
  }

  lemma KeepsPlaced(a: seq<uint32>, b: seq<uint32>, before: seq<seq<int32>>, size: Command, mTile: nat, nTile: nat,
                    r: nat, c: nat)
    requires |a| == |b| == |before| == DEPTH && Placed(a, b, before, size.offset, size.k, size.m, r, c)
    requires Place(size.m, r, c) < TileRow(size.m, mTile, nTile) && TileRow(size.m, mTile, nTile) + 4 <= DEPTH
    ensures Placed(a, b, WithRows(before, TilePending(a, b, size, mTile, nTile), 4), size.offset, size.k, size.m, r, c)
  {
    hide Place, Entry, WithRows, TileBank, TileRow;
    assert RowsAfter(Place(size.m, r, c), TileRow(size.m, mTile, nTile)) >= 4;
  }

  lemma TilePlaced(a: seq<uint32>, b: seq<uint32>, before: seq<seq<int32>>, size: Command, r: nat, c: nat)
    requires |a| == |b| == |before| == DEPTH
    requires Place(size.m, r, c) == TileRow(size.m, r / 4, c / 4) + r % 4 && TileRow(size.m, r / 4, c / 4) + 4 <= DEPTH
    ensures Placed(a, b, WithRows(before, TilePending(a, b, size, r / 4, c / 4), 4), size.offset, size.k, size.m, r, c)
  {
    hide Place, Entry, WithRows, TileBank, TileRow;
    assert RowsAfter(Place(size.m, r, c), TileRow(size.m, r / 4, c / 4)) == r % 4;
    BankEntry(a, b, size, r, c);
  }

  lemma BankEntry(a: seq<uint32>, b: seq<uint32>, size: Command, r: nat, c: nat)
    requires |a| == |b| == DEPTH
    ensures SumRow(TileBank(a, b, size, r / 4, c / 4), r % 4)[c % 4] == Entry(a, b, size.offset, size.k, r, c)
  {
    hide Entry;
    assert 4 * (r / 4) + r % 4 == r && 4 * (c / 4) + c % 4 == c;
  }

  // ---------- when the product is in place ----------

  /** With room for the last tile, the entries of the tiles written so far are all placed. */
  lemma {:induction false} TilesPlaced(c0: seq<seq<int32>>, a: seq<uint32>, b: seq<uint32>, size: Command,
                                       mTile: nat, nTile: nat)
    requires |c0| == |a| == |b| == DEPTH && size.Valid() && RowsFit(size)
    requires mTile < Tiles(size.m) && nTile <= Tiles(size.n) && (nTile == Tiles(size.n) ==> mTile == 0)
    ensures AllPlaced(a, b, AfterTiles(c0, a, b, size, mTile, nTile), size.offset, size.k, size.m, Tiles(size.n),
                      TileRow(size.m, mTile, nTile))
    decreases nTile, mTile, 0
  {
    hide AllPlaced, AfterTiles, RowsFit, TileRow, WithRows, TilePending, NextPlace;
    if mTile > 0 {
      PlacedThrough(c0, a, b, size, mTile - 1, nTile);
    } else if nTile > 0 {
      PlacedThrough(c0, a, b, size, Tiles(size.m) - 1, nTile - 1);
    } else {
      NothingPlaced(a, b, AfterTiles(c0, a, b, size, 0, 0), size);
    }
  }

  lemma {:induction false} PlacedThrough(c0: seq<seq<int32>>, a: seq<uint32>, b: seq<uint32>, size: Command,
                                         mTile: nat, nTile: nat)
    requires |c0| == |a| == |b| == DEPTH && size.Valid() && RowsFit(size)
    requires mTile < Tiles(size.m) && nTile < Tiles(size.n)
    ensures var mNext, nNext := NextRowTile(size, mTile), NextColumnTile(size, mTile, nTile);
      AllPlaced(a, b, AfterTiles(c0, a, b, size, mNext, nNext), size.offset, size.k, size.m, Tiles(size.n),
                TileRow(size.m, mNext, nNext))
    decreases nTile, mTile, 1
  {
    hide AllPlaced, AfterTiles, RowsFit, TileRow, WithRows, TilePending, NextPlace, NextRowTile, NextColumnTile;
    TilesPlaced(c0, a, b, size, mTile, nTile);
    TileFits(size, mTile, nTile);
    TileStep(a, b, AfterTiles(c0, a, b, size, mTile, nTile), size, mTile, nTile);
    AfterTile(c0, a, b, size, mTile, nTile);
    NextTileRow(size, mTile, nTile);
  }

  lemma NothingPlaced(a: seq<uint32>, b: seq<uint32>, result: seq<seq<int32>>, size: Command)
    ensures AllPlaced(a, b, result, size.offset, size.k, size.m, Tiles(size.n), TileRow(size.m, 0, 0))
  {
  }

  lemma PlaceBeforeEnd(m: nat, r: nat, c: nat, nTiles: nat)
    requires r < m && c < 4 * nTiles
    ensures Place(m, r, c) < TileRow(m, 0, nTiles)
  {
    MulMono(m, c / 4 + 1, nTiles);
  }

  lemma ProductPlaced(c0: seq<seq<int32>>, a: seq<uint32>, b: seq<uint32>, size: Command, r: nat, c: nat)
    requires |c0| == |a| == |b| == DEPTH && size.Valid() && RowsFit(size) && r < size.m && c < 4 * Tiles(size.n)
    ensures Placed(a, b, RunResult(c0, a, b, size), size.offset, size.k, size.m, r, c)
  {
    hide AfterTiles, RowsFit, TileRow, Placed, Place;
    TilesPlaced(c0, a, b, size, 0, Tiles(size.n));
    PlaceBeforeEnd(size.m, r, c, Tiles(size.n));
  }

  // ---------- when it is not ----------

  /** A word with a one in the given lane, counted from the top, and zeros elsewhere. */
  function One(lane: nat): uint32
    requires lane < 4
  {
    if lane == 0 then 0x100_0000 else if lane == 1 then 0x1_0000 else if lane == 2 then 0x100 else 1
  }

  lemma OneLanes(lane: nat, l: nat)
    requires lane < 4 && l < 4
    ensures TopLane(One(lane), l) == if l == lane then 1 else 0
  {
  }

  /** A buffer full of such words. */
  function Ones(lane: nat): (buffer: seq<uint32>)
    requires lane < 4
    ensures |buffer| == DEPTH
  {
    seq(DEPTH, _ => One(lane))
  }

  lemma {:induction false} DotOfOnes(offset: nat, la: nat, a: seq<uint32>, b: seq<uint32>, i: nat, n: nat)
    requires la < 4 && i < 4 && n <= |a| == |b|
    requires forall x :: 0 <= x < |a| ==> a[x] == One(la) && b[x] == One(0)
    ensures Dot(offset, a, b, i, 0, n) == if i == la then n * (offset + 1) else 0
  {
    hide TopLane, One;
    if n > 0 {
      DotOfOnes(offset, la, a, b, i, n - 1);
      OneLanes(la, i);
      OneLanes(0, 0);
      assert n * (offset + 1) == (n - 1) * (offset + 1) + (offset + 1);
    }
  }

  lemma EntryOfOnes(size: Command, lane: nat, r: nat, c: nat)
    requires size.k < 0x100 && size.offset < 0x100 && lane < 4 && c % 4 == 0
    ensures Entry(Ones(lane), Ones(0), size.offset, size.k, r, c)
         == if r % 4 == lane then size.k * (size.offset + 1) else 0
  {
    hide One, Dot, ToInt32;
    DotOfOnes(size.offset, lane, TileWords(Ones(lane), size.k, r / 4), TileWords(Ones(0), size.k, c / 4), r % 4,
              size.k);
    MulMono(size.offset + 1, size.k, 0x100);
    SmallWrap(size.k * (size.offset + 1));
    SmallWrap(0);
  }

  lemma SmallWrap(v: int)
    requires 0 <= v <= 0x1_0000
    ensures ToInt32(v) == v
  {
  }

  lemma RunResultLast(c0: seq<seq<int32>>, a: seq<uint32>, b: seq<uint32>, size: Command, mTile: nat, nTile: nat)
    requires |c0| == |a| == |b| == DEPTH && mTile == Tiles(size.m) - 1 && nTile == Tiles(size.n) - 1
    ensures RunResult(c0, a, b, size)
         == WithRows(AfterTiles(c0, a, b, size, mTile, nTile), TilePending(a, b, size, mTile, nTile), 4)
  {
    hide WithRows, TilePending, AfterTiles, Tiles;
    AfterTile(c0, a, b, size, mTile, nTile);
  }

  /** Rows past the end of the memory go round to its first row. */
  lemma RowsGoRound(base: seq<seq<int32>>, p: Pending)
    requires |base| == DEPTH && p.at < DEPTH < p.at + 4
    ensures WithRows(base, p, 4)[0] == SumRow(p.sums, DEPTH - p.at)
  {
    hide WithRows, SumRow;
    assert RowsAfter(0, p.at) == DEPTH - p.at;
  }

  /** What a tile of ones leaves in the row of its lane. */
  lemma SumOfOnes(size: Command, lane: nat, mTile: nat, nTile: nat)
    requires size.Valid() && size.offset < 0x100 && lane < 4
    ensures SumRow(TileBank(Ones(lane), Ones(0), size, mTile, nTile), lane)[0] > 0
  {
    hide Entry, Ones;
    EntryOfOnes(size, lane, 4 * mTile + lane, 4 * nTile);
    MulMono(size.offset + 1, 1, size.k);
    hide TileBank;
    BankIs(Ones(lane), Ones(0), size, mTile, nTile, lane);
  }

  lemma BankIs(a: seq<uint32>, b: seq<uint32>, size: Command, mTile: nat, nTile: nat, lane: nat)
    requires |a| == |b| == DEPTH && lane < 4
    ensures SumRow(TileBank(a, b, size, mTile, nTile), lane)[0]
         == Entry(a, b, size.offset, size.k, 4 * mTile + lane, 4 * nTile)
  {
    hide Entry;
  }

  lemma LastTile(size: Command)
    requires size.Valid() && Tiles(size.n) * size.m <= DEPTH && !RowsFit(size)
    ensures TileRow(size.m, Tiles(size.m) - 1, Tiles(size.n) - 1) < DEPTH
          < TileRow(size.m, Tiles(size.m) - 1, Tiles(size.n) - 1) + 4
  {
    var p := (Tiles(size.n) - 1) * size.m;
    assert Tiles(size.n) * size.m == p + size.m;
  }

  /** Contents for which the spilled rows overwrite the first entry. */
  lemma SpillMisplaces(c0: seq<seq<int32>>, size: Command, mTile: nat, nTile: nat, at: nat)
    requires |c0| == DEPTH && size.Valid() && size.offset < 0x100
    requires mTile == Tiles(size.m) - 1 && nTile == Tiles(size.n) - 1
    requires at == TileRow(size.m, mTile, nTile) < DEPTH < at + 4
    ensures var a, b := Ones(DEPTH - at), Ones(0);
      !Placed(a, b, RunResult(c0, a, b, size), size.offset, size.k, size.m, 0, 0)
  {
    hide Entry, RunResult, Ones, Tiles, TileRow, TileBank, WithRows, AfterTiles, SumRow;
    var lane := DEPTH - at;
    var a, b := Ones(lane), Ones(0);
    RunResultLast(c0, a, b, size, mTile, nTile);
    RowsGoRound(AfterTiles(c0, a, b, size, mTile, nTile), TilePending(a, b, size, mTile, nTile));
    SumOfOnes(size, lane, mTile, nTile);
    EntryOfOnes(size, lane, 0, 0);
    assert Place(size.m, 0, 0) == 0;
  }

  /** Without room for the last tile, contents for which the product is not in place. */
  lemma ProductMisplaced(size: Command) returns (c0: seq<seq<int32>>, a: seq<uint32>, b: seq<uint32>)
    requires size.Valid() && size.offset < 0x100 && !RowsFit(size)
    ensures |c0| == |a| == |b| == DEPTH && !HoldsProduct(a, b, RunResult(c0, a, b, size), size)
  {
    c0 := seq(DEPTH, _ => [0, 0, 0, 0]);
    if Tiles(size.n) * size.m <= DEPTH {
      LastTile(size);
      var mTile: nat, nTile: nat := Tiles(size.m) - 1, Tiles(size.n) - 1;
      var at := TileRow(size.m, mTile, nTile);
      hide RunResult, Ones, Tiles, TileRow, Placed, RowsFit;
      a, b := Ones(DEPTH - at), Ones(0);
      SpillMisplaces(c0, size, mTile, nTile, at);
    } else {
      a, b := Ones(0), Ones(0);
      LastPlace(size);
      hide RunResult, Ones, Tiles, Place, Entry, RowsFit;
      assert !Placed(a, b, RunResult(c0, a, b, size), size.offset, size.k, size.m, size.m - 1, 4 * (Tiles(size.n) - 1));
    }
  }

  lemma LastPlace(size: Command)
    requires size.Valid() && Tiles(size.n) * size.m > DEPTH
    ensures 4 * (Tiles(size.n) - 1) < size.n && Place(size.m, size.m - 1, 4 * (Tiles(size.n) - 1)) >= DEPTH
  {
    var p := (Tiles(size.n) - 1) * size.m;
    assert Tiles(size.n) * size.m == p + size.m;
    assert 4 * (Tiles(size.n) - 1) / 4 == Tiles(size.n) - 1;
  }

  /** Whatever the buffers hold, a run leaves every entry of the product in its place: exactly for the sizes whose last
      tile has room. */
  lemma PlacedIff(size: Command)
    requires size.Valid() && size.offset < 0x100
    ensures (forall c0: seq<seq<int32>>, a: seq<uint32>, b: seq<uint32> :: |c0| == |a| == |b| == DEPTH ==>
               HoldsProduct(a, b, RunResult(c0, a, b, size), size))
      <==> RowsFit(size)
  {
    hide RowsFit, RunResult, Placed;
    if RowsFit(size) {
      forall c0: seq<seq<int32>>, a: seq<uint32>, b: seq<uint32> | |c0| == |a| == |b| == DEPTH
        ensures HoldsProduct(a, b, RunResult(c0, a, b, size), size)
      {
        forall r, c | 0 <= r < size.m && 0 <= c < size.n
          ensures Placed(a, b, RunResult(c0, a, b, size), size.offset, size.k, size.m, r, c)
        {
          ProductPlaced(c0, a, b, size, r, c);
        }
      }
    } else {
      var c0, a, b := ProductMisplaced(size);
    }
  }
}
