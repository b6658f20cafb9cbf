/** The matrix unit of the CFU: its three buffers around the tile controller, clocked cycle by cycle (TPU,
    global_buffer and write_buffer of cfu.v). */
module Tpu {
  import opened Words
  import opened Wrappers
  import opened Systolic
  import opened TileControl
  import opened Placement

  class MatrixUnit {
    const bufferA: array<uint32>
    const bufferB: array<uint32>
    const bufferC: array<seq<int32>>
    var machine: Machine

    /** The unit between two commands. */
    ghost predicate Valid()
      reads this, bufferC
    {
      Shaped() && AtRest(machine)
    }

    ghost predicate Shaped()
      reads this, bufferC
    {
      && bufferA != bufferB
      && bufferA.Length == bufferB.Length == bufferC.Length == DEPTH
      && (forall i :: 0 <= i < DEPTH ==> |bufferC[i]| == 4)
    }

    /** The unit after reset. */
    constructor ()
      ensures Valid() && fresh(bufferA) && fresh(bufferB) && fresh(bufferC)
    {
      bufferA := new uint32[DEPTH](_ => 0);
      bufferB := new uint32[DEPTH](_ => 0);
      bufferC := new seq<int32>[DEPTH](_ => [0, 0, 0, 0]);
      machine := RESET;
      ResetAtRest();
    }

    /** Code 1 stores a word of the left matrix; the buffers decode ten bits of the index. */
    method WriteA(data: uint32, index: nat)
      requires Valid()
      modifies bufferA
      ensures Valid() && bufferA[..] == old(bufferA[..])[index % DEPTH := data]
    {
      bufferA[index % DEPTH] := data;
    }

    /** Code 2 stores a word of the right matrix. */
    method WriteB(data: uint32, index: nat)
      requires Valid()
      modifies bufferB
      ensures Valid() && bufferB[..] == old(bufferB[..])[index % DEPTH := data]
    {
      bufferB[index % DEPTH] := data;
    }

    /** Code 3 reads one of the four values of a row of results. */
    method ReadC(which: nat, index: nat) returns (v: int32)
      requires Valid()
      ensures v == bufferC[index % DEPTH][which % 4]
    {
      v := bufferC[index % DEPTH][which % 4];
    }

    /** One clock cycle: at the falling edge the memories read and write, at the rising edge the registers move. */
    method Cycle(start: Option<Command>)
      requires Shaped()
      modifies this, bufferC
      ensures Shaped()
      ensures bufferC[..] == Fall(old(bufferC[..]), old(machine.writer))
      ensures machine == Tick(old(machine), start, bufferA[old(machine.control.aIndex) % DEPTH],
                              bufferB[old(machine.control.bIndex) % DEPTH])
    {
      hide Clock, NextControl, NextWriter;
      var c, w := machine.control, machine.writer;
      var wa, wb := bufferA[c.aIndex % DEPTH], bufferB[c.bIndex % DEPTH];
      if w.phase.Write? {
        bufferC[w.index % DEPTH] := SumRow(w.rows, w.counter);
      }
      var grid := Clock(machine.grid, c.size.offset, c.phase.PassData?, wa, wb);
      machine := Machine(NextControl(c, start, WriteBusy(machine)),
                         NextWriter(w, SaDone(c), c.cIndex, grid.acc), grid);
    }

    /** Code 0 starts the unit with its sizes and offset, and code 4 waits until it is idle. The offset port is
        eight bits wide and unsigned. For sizes whose last tile has room, every entry of the product ends up in the
        result buffer. */
    method Run(k: nat, m: nat, n: nat, inputOffset: int32)
      requires Valid() && 0 < k < 256 && 0 < m < 256 && 0 < n < 256
      modifies this, bufferC
      ensures Valid()
      ensures var size := Command(k, m, n, inputOffset % 0x100);
        && bufferC[..] == RunResult(old(bufferC[..]), bufferA[..], bufferB[..], size)
        && (RowsFit(size) ==> forall r, c :: 0 <= r < m && 0 <= c < 4 * Tiles(n) ==>
              Placed(bufferA[..], bufferB[..], bufferC[..], size.offset, k, m, r, c))
    {
      hide Tick, Fall, AtRest, Tracks, Placed, RunResult, RowsFit;
      ghost var a, b, c0 := bufferA[..], bufferB[..], bufferC[..];
      var size := Command(k, m, n, inputOffset % 0x100);
      ghost var g := Started(machine, c0, size, a, b, a[machine.control.aIndex % DEPTH],
                             b[machine.control.bIndex % DEPTH]);
      Cycle(Some(size));
      while !machine.control.phase.Idle?
        invariant Shaped() && bufferA[..] == a && bufferB[..] == b
        invariant machine.control.phase.Idle? ==> AtRest(machine) && bufferC[..] == RunResult(c0, a, b, size)
        invariant !machine.control.phase.Idle? ==> Tracks(machine, bufferC[..], g, size, a, b, c0) && InRange(g, size)
        decreases !machine.control.phase.Idle?, Tiles(n) - g.nTile, Tiles(m) - g.mTile, k + 7 - g.t
      {
        g := Continued(machine, bufferC[..], g, size, a, b, c0, a[machine.control.aIndex % DEPTH],
                       b[machine.control.bIndex % DEPTH]);
        Cycle(None);
      }
      if RowsFit(size) {
        forall r, c | 0 <= r < m && 0 <= c < 4 * Tiles(n) ensures Placed(a, b, bufferC[..], size.offset, k, m, r, c) {
          ProductPlaced(c0, a, b, size, r, c);
        }
      }
    }
  }

  // ---------- what a run has done so far ----------

  /** A run is in cycle t of a tile, which the array started with nothing in flight, or past the last tile. The rows of
      the tile before are on their way into `base`. */
  datatype Progress = Progress(mTile: nat, nTile: nat, t: nat, start: Registers, base: seq<seq<int32>>,
                               pending: Option<Pending>)

  /** The result memory once the pending rows are in. */
  function Completed(g: Progress): (result: seq<seq<int32>>)
    requires |g.base| == DEPTH
    ensures |result| == DEPTH
  {
    Written(g.base, g.pending, 5)
  }

  /** The controller and the array are in cycle t of the tile. */
  ghost predicate Computes(s: Machine, g: Progress, size: Command, a: seq<uint32>, b: seq<uint32>)
    requires size.Valid() && |a| == |b| == DEPTH
  {
    && InTile(s.control, size, g.mTile, g.nTile, g.t) && Flushed(g.start)
    && s.grid == After(g.start, size.offset, TileWords(a, size.k, g.mTile), TileWords(b, size.k, g.nTile), g.t)
  }

  /** The write buffer has brought the pending rows as far as cycle t says. */
  ghost predicate Writes(s: Machine, result: seq<seq<int32>>, g: Progress) {
    |g.base| == DEPTH && WriterAt(s.writer, g.pending, g.t) && result == Written(g.base, g.pending, g.t)
  }

  /** The run that started on the result memory c0 is as far as the progress says: the tiles before the current one are
      in the result memory or on their way. */
  ghost predicate Tracks(s: Machine, result: seq<seq<int32>>, g: Progress, size: Command, a: seq<uint32>,
                         b: seq<uint32>, c0: seq<seq<int32>>)
  {
    && size.Valid() && |a| == |b| == |c0| == DEPTH
    && Writes(s, result, g) && g.mTile < Tiles(size.m) && g.nTile <= Tiles(size.n)
    && Completed(g) == AfterTiles(c0, a, b, size, g.mTile, g.nTile)
    && if g.nTile < Tiles(size.n) then Computes(s, g, size, a, b)
       else g.mTile == 0 && g.pending.Some? && Ending(s.control, g.t) && Flushed(s.grid)
  }

  // ---------- one cycle of a run ----------

  /** The first cycle. */
  lemma Started(s: Machine, result: seq<seq<int32>>, size: Command, a: seq<uint32>, b: seq<uint32>,
                wa: uint32, wb: uint32) returns (g: Progress)
    requires AtRest(s) && |result| == |a| == |b| == DEPTH && size.Valid()
    ensures var s' := Tick(s, Some(size), wa, wb);
      && Tracks(s', Fall(result, s.writer), g, size, a, b, result) && !s'.control.phase.Idle?
      && InRange(g, size)
  {
    hide Clock, NextControl, Flushed, TileWords;
    Starts(s, size);
    FlushedStays(s.grid, s.control.size.offset, wa, wb);
    g := Progress(0, 0, 0, Clock(s.grid, s.control.size.offset, false, wa, wb), result, None);
  }

  /** The array takes in the words the tile's indices point at. */
  lemma GridStep(s: Machine, g: Progress, size: Command, a: seq<uint32>, b: seq<uint32>, wa: uint32, wb: uint32)
    requires size.Valid() && |a| == |b| == DEPTH && Computes(s, g, size, a, b)
    requires wa == a[s.control.aIndex % DEPTH] && wb == b[s.control.bIndex % DEPTH]
    ensures Tick(s, None, wa, wb).grid ==
      After(g.start, size.offset, TileWords(a, size.k, g.mTile), TileWords(b, size.k, g.nTile), g.t + 1)
  {
    hide Clock, NextControl, NextWriter, Flushed, Tiles, TileStart;
  }

  /** A cycle inside a tile. */
  lemma TileGoesOn(s: Machine, result: seq<seq<int32>>, g: Progress, size: Command, a: seq<uint32>, b: seq<uint32>,
                   c0: seq<seq<int32>>, wa: uint32, wb: uint32)
    requires Tracks(s, result, g, size, a, b, c0) && g.nTile < Tiles(size.n) && g.t < size.k + 6
    requires wa == a[s.control.aIndex % DEPTH] && wb == b[s.control.bIndex % DEPTH]
    ensures Tracks(Tick(s, None, wa, wb), Fall(result, s.writer), g.(t := g.t + 1), size, a, b, c0)
  {
    TrackedTile(s, result, g, size, a, b, c0);
    hide Tick, Fall, AfterTiles, Written, Computes, Writes, Tiles, InTile;
    ComputesOn(s, g, size, a, b, wa, wb);
    WritesOn(s, result, g, wa, wb);
  }

  lemma ComputesOn(s: Machine, g: Progress, size: Command, a: seq<uint32>, b: seq<uint32>, wa: uint32, wb: uint32)
    requires size.Valid() && |a| == |b| == DEPTH && Computes(s, g, size, a, b) && g.t < size.k + 6
    requires wa == a[s.control.aIndex % DEPTH] && wb == b[s.control.bIndex % DEPTH]
    ensures Computes(Tick(s, None, wa, wb), g.(t := g.t + 1), size, a, b)
  {
    GridStep(s, g, size, a, b, wa, wb);
    hide Clock, NextControl, NextWriter, Flushed, TileWords, InTile, After;
    InTileStep(s.control, size, g.mTile, g.nTile, g.t, WriteBusy(s));
  }

  lemma WritesOn(s: Machine, result: seq<seq<int32>>, g: Progress, wa: uint32, wb: uint32)
    requires Writes(s, result, g) && !SaDone(s.control)
    ensures Writes(Tick(s, None, wa, wb), Fall(result, s.writer), g.(t := g.t + 1))
  {
    hide Clock, NextControl, NextWriter, Written, WriterAt, Fall;
    WriterStep(s.writer, g.base, g.pending, g.t, s.control.cIndex, Tick(s, None, wa, wb).grid.acc);
  }

  /** The last cycle of a tile hands its sums to the write buffer and goes on to the next tile, or past the last one. */
  lemma TileFinishes(s: Machine, result: seq<seq<int32>>, g: Progress, size: Command, a: seq<uint32>, b: seq<uint32>,
                     c0: seq<seq<int32>>, wa: uint32, wb: uint32) returns (g': Progress)
    requires Tracks(s, result, g, size, a, b, c0) && g.nTile < Tiles(size.n) && g.t == size.k + 6
    requires wa == a[s.control.aIndex % DEPTH] && wb == b[s.control.bIndex % DEPTH]
    ensures Tracks(Tick(s, None, wa, wb), Fall(result, s.writer), g', size, a, b, c0)
    ensures g'.t == 0 && g'.mTile == NextRowTile(size, g.mTile) && g'.nTile == NextColumnTile(size, g.mTile, g.nTile)
  {
    TrackedTile(s, result, g, size, a, b, c0);
    hide Tick, Fall, AfterTiles, Flushed, InTile, TileRow, Completed, Tiles, Computes, Writes, Ending, Tracks;
    hide NextRowTile, NextColumnTile;
    NextRowTileInRange(size, g.mTile, g.nTile);
    TileHandedOver(s, g, size, a, b, c0, wa, wb);
    SumsTaken(s, result, g, size, wa, wb);
    g' := NextProgress(g, size, Tick(s, None, wa, wb).grid);
    NextTileBegins(s, g, size, a, b, wa, wb);
    NextTracked(Tick(s, None, wa, wb), Fall(result, s.writer), g', size, a, b, c0);
  }

  /** A run with pending rows is tracked if its parts are. */
  lemma NextTracked(s: Machine, result: seq<seq<int32>>, g: Progress, size: Command, a: seq<uint32>, b: seq<uint32>,
                    c0: seq<seq<int32>>)
    requires size.Valid() && |a| == |b| == |c0| == DEPTH && Writes(s, result, g) && Flushed(s.grid)
    requires g.mTile < Tiles(size.m) && g.nTile <= Tiles(size.n) && g.t == 0 && g.pending.Some?
    requires Completed(g) == AfterTiles(c0, a, b, size, g.mTile, g.nTile)
    requires if g.nTile < Tiles(size.n) then Computes(s, g, size, a, b) else g.mTile == 0 && Ending(s.control, 0)
    ensures Tracks(s, result, g, size, a, b, c0)
  {
    hide Completed, AfterTiles, Computes, Flushed, Ending, Tiles, WriterAt, Written;
  }

  /** What is known in a tile. */
  lemma TrackedTile(s: Machine, result: seq<seq<int32>>, g: Progress, size: Command, a: seq<uint32>, b: seq<uint32>,
                    c0: seq<seq<int32>>)
    requires Tracks(s, result, g, size, a, b, c0) && g.nTile < Tiles(size.n)
    ensures Computes(s, g, size, a, b) && InTile(s.control, size, g.mTile, g.nTile, g.t)
    ensures size.Valid() && |a| == |b| == |c0| == |g.base| == DEPTH && g.mTile < Tiles(size.m)
    ensures Writes(s, result, g) && Completed(g) == AfterTiles(c0, a, b, size, g.mTile, g.nTile)
    ensures g.t < size.k + 6 ==> !SaDone(s.control)
  {
    hide Completed, AfterTiles, Written, WriterAt;
  }

  /** The progress after a tile: its sums are pending. */
  function NextProgress(g: Progress, size: Command, grid: Registers): Progress
    requires |g.base| == DEPTH
  {
    Progress(NextRowTile(size, g.mTile), NextColumnTile(size, g.mTile, g.nTile), 0, grid, Completed(g),
             Some(Pending(TileRow(size.m, g.mTile, g.nTile), grid.acc)))
  }

  lemma NextRowTileInRange(size: Command, mTile: nat, nTile: nat)
    requires mTile < Tiles(size.m) && nTile < Tiles(size.n)
    ensures NextRowTile(size, mTile) < Tiles(size.m) && NextColumnTile(size, mTile, nTile) <= Tiles(size.n)
    ensures NextColumnTile(size, mTile, nTile) == Tiles(size.n) ==> NextRowTile(size, mTile) == 0
  {
  }

  /** The write buffer takes the sums over. */
  lemma SumsTaken(s: Machine, result: seq<seq<int32>>, g: Progress, size: Command, wa: uint32, wb: uint32)
    requires size.Valid() && Writes(s, result, g) && InTile(s.control, size, g.mTile, g.nTile, g.t)
    requires g.t == size.k + 6
    ensures Writes(Tick(s, None, wa, wb), Fall(result, s.writer), NextProgress(g, size, Tick(s, None, wa, wb).grid))
  {
    var at := TileRow(size.m, g.mTile, g.nTile);
    assert s.control.cIndex == at && SaDone(s.control);
    hide Clock, NextControl, NextWriter, Fall, WithRows, InTile, TileRow, Tiles;
    WriterTakes(s.writer, g.base, g.pending, g.t, at, Tick(s, None, wa, wb).grid.acc);
  }

  /** The next tile begins with an empty array, unless there is none. */
  lemma NextTileBegins(s: Machine, g: Progress, size: Command, a: seq<uint32>, b: seq<uint32>, wa: uint32, wb: uint32)
    requires size.Valid() && |a| == |b| == |g.base| == DEPTH
    requires InTile(s.control, size, g.mTile, g.nTile, g.t) && g.t == size.k + 6
    requires Flushed(Tick(s, None, wa, wb).grid)
    ensures var s' := Tick(s, None, wa, wb);
      if NextColumnTile(size, g.mTile, g.nTile) < Tiles(size.n)
      then Computes(s', NextProgress(g, size, s'.grid), size, a, b)
      else Ending(s'.control, 0)
  {
    TileEnds(s.control, size, g.mTile, g.nTile, WriteBusy(s));
    NextRowTileInRange(size, g.mTile, g.nTile);
    hide Clock, NextControl, NextWriter, Flushed, InTile, Tiles, TileWords, NextRowTile, NextColumnTile;
  }

  /** At the end of a tile the array holds its sums. */
  lemma TileSummed(s: Machine, g: Progress, size: Command, a: seq<uint32>, b: seq<uint32>, wa: uint32, wb: uint32)
    requires size.Valid() && |a| == |b| == DEPTH && Computes(s, g, size, a, b)
    requires wa == a[s.control.aIndex % DEPTH] && wb == b[s.control.bIndex % DEPTH] && g.t == size.k + 6
    ensures var grid := Tick(s, None, wa, wb).grid;
      Flushed(grid) && forall i: nat, j: nat :: i < 4 && j < 4 ==>
        grid.acc(i, j) == TileBank(a, b, size, g.mTile, g.nTile)(i, j)
  {
    hide Tick, Tiles, Flushed, TileWords, After, Dot, ToInt32, InTile;
    GridStep(s, g, size, a, b, wa, wb);
    TileComputesProduct(g.start, size.offset, TileWords(a, size.k, g.mTile), TileWords(b, size.k, g.nTile));
  }

  /** With the tile's sums pending, the result memory will be the one after that tile. */
  lemma TileCompletes(g: Progress, sums: Bank<int32>, size: Command, a: seq<uint32>, b: seq<uint32>,
                      c0: seq<seq<int32>>)
    requires |a| == |b| == |c0| == |g.base| == DEPTH && g.mTile < Tiles(size.m)
    requires forall i: nat, j: nat :: i < 4 && j < 4 ==> sums(i, j) == TileBank(a, b, size, g.mTile, g.nTile)(i, j)
    requires Completed(g) == AfterTiles(c0, a, b, size, g.mTile, g.nTile)
    ensures Written(Completed(g), Some(Pending(TileRow(size.m, g.mTile, g.nTile), sums)), 5)
         == AfterTiles(c0, a, b, size, NextRowTile(size, g.mTile), NextColumnTile(size, g.mTile, g.nTile))
  {
    hide AfterTiles, WithRows, Tiles, TileBank, TileRow, NextRowTile, NextColumnTile;
    AfterTile(c0, a, b, size, g.mTile, g.nTile);
    SameSums(Completed(g), TileRow(size.m, g.mTile, g.nTile), sums, TileBank(a, b, size, g.mTile, g.nTile));
  }

  lemma TileHandedOver(s: Machine, g: Progress, size: Command, a: seq<uint32>, b: seq<uint32>, c0: seq<seq<int32>>,
                       wa: uint32, wb: uint32)
    requires size.Valid() && |a| == |b| == |c0| == |g.base| == DEPTH && g.mTile < Tiles(size.m)
    requires Computes(s, g, size, a, b) && g.t == size.k + 6
    requires wa == a[s.control.aIndex % DEPTH] && wb == b[s.control.bIndex % DEPTH]
    requires Completed(g) == AfterTiles(c0, a, b, size, g.mTile, g.nTile)
    ensures var grid := Tick(s, None, wa, wb).grid;
      var next := NextProgress(g, size, grid);
      Flushed(grid) && Completed(next) == AfterTiles(c0, a, b, size, next.mTile, next.nTile)
  {
    hide Tick, AfterTiles, Flushed, TileRow, WithRows, Tiles, Computes, TileBank, NextRowTile, NextColumnTile;
    TileSummed(s, g, size, a, b, wa, wb);
    TileCompletes(g, Tick(s, None, wa, wb).grid.acc, size, a, b, c0);
  }

  /** A cycle after the last tile, while its rows are written. */
  lemma RunEnds(s: Machine, result: seq<seq<int32>>, g: Progress, size: Command, a: seq<uint32>, b: seq<uint32>,
                c0: seq<seq<int32>>, wa: uint32, wb: uint32)
    requires Tracks(s, result, g, size, a, b, c0) && g.nTile == Tiles(size.n)
    ensures var s', r' := Tick(s, None, wa, wb), Fall(result, s.writer);
      if g.t < 5 then Tracks(s', r', g.(t := g.t + 1), size, a, b, c0)
      else AtRest(s') && r' == RunResult(c0, a, b, size)
  {
    assert WriteBusy(s) == (g.t < 5) && !SaDone(s.control);
    EndingStep(s.control, g.t, WriteBusy(s));
    FlushedStays(s.grid, s.control.size.offset, wa, wb);
    hide Clock, NextControl, NextWriter, Fall, AfterTiles, Flushed, WithRows;
    WritesOn(s, result, g, wa, wb);
  }

  /** Any cycle of a run. */
  lemma Continued(s: Machine, result: seq<seq<int32>>, g: Progress, size: Command, a: seq<uint32>, b: seq<uint32>,
                  c0: seq<seq<int32>>, wa: uint32, wb: uint32) returns (g': Progress)
    requires Tracks(s, result, g, size, a, b, c0)
    requires wa == a[s.control.aIndex % DEPTH] && wb == b[s.control.bIndex % DEPTH]
    ensures var s', r' := Tick(s, None, wa, wb), Fall(result, s.writer);
      if s'.control.phase.Idle? then AtRest(s') && r' == RunResult(c0, a, b, size)
      else Tracks(s', r', g', size, a, b, c0) && InRange(g', size) && Later(g', g)
  {
    hide Tick, Fall, AfterTiles;
    g' := g;
    if g.nTile == Tiles(size.n) {
      RunEnds(s, result, g, size, a, b, c0, wa, wb);
      g' := g.(t := g.t + 1);
    } else if g.t < size.k + 6 {
      TileGoesOn(s, result, g, size, a, b, c0, wa, wb);
      g' := g.(t := g.t + 1);
    } else {
      g' := TileFinishes(s, result, g, size, a, b, c0, wa, wb);
    }
  }

  predicate InRange(g: Progress, size: Command) {
    g.nTile <= Tiles(size.n) && g.mTile < Tiles(size.m) && g.t < size.k + 7
  }

  /** The order in which a run goes through its tiles and cycles. */
  predicate Later(g': Progress, g: Progress) {
    g'.nTile > g.nTile || (g'.nTile == g.nTile && (g'.mTile > g.mTile || (g'.mTile == g.mTile && g'.t > g.t)))
  }

  // ---------- whole runs ----------

  /** The unit and its result memory. */
  datatype Unit = Unit(machine: Machine, result: seq<seq<int32>>)

  function Next(u: Unit, start: Option<Command>, a: seq<uint32>, b: seq<uint32>): (u': Unit)
    requires |a| == |b| == |u.result| == DEPTH
    ensures |u'.result| == DEPTH
  {
    Unit(Tick(u.machine, start, a[u.machine.control.aIndex % DEPTH], b[u.machine.control.bIndex % DEPTH]),
         Fall(u.result, u.machine.writer))
  }

  /** The unit t cycles after the one that starts it. */
  function RunFor(u: Unit, size: Command, a: seq<uint32>, b: seq<uint32>, t: nat): (u': Unit)
    requires |a| == |b| == |u.result| == DEPTH
    ensures |u'.result| == DEPTH
  {
    if t == 0 then Next(u, Some(size), a, b) else Next(RunFor(u, size, a, b, t - 1), None, a, b)
  }

  predicate IdleAt(u: Unit, size: Command, a: seq<uint32>, b: seq<uint32>, t: nat)
    requires |a| == |b| == |u.result| == DEPTH
  {
    RunFor(u, size, a, b, t).machine.control.phase.Idle?
  }

  lemma Finishes(u: Unit, size: Command, a: seq<uint32>, b: seq<uint32>, t: nat, g: Progress) returns (end: nat)
    requires |a| == |b| == |u.result| == DEPTH && size.Valid() && InRange(g, size)
    requires var now := RunFor(u, size, a, b, t); Tracks(now.machine, now.result, g, size, a, b, u.result)
    ensures IdleAt(u, size, a, b, end)
    ensures RunFor(u, size, a, b, end).result == RunResult(u.result, a, b, size)
    decreases Tiles(size.n) - g.nTile, Tiles(size.m) - g.mTile, size.k + 7 - g.t
  {
    hide Tick, Fall, Tracks, RunResult;
    var now := RunFor(u, size, a, b, t);
    var g' := Continued(now.machine, now.result, g, size, a, b, u.result,
                        a[now.machine.control.aIndex % DEPTH], b[now.machine.control.bIndex % DEPTH]);
    if IdleAt(u, size, a, b, t + 1) {
      end := t + 1;
    } else {
      end := Finishes(u, size, a, b, t + 1, g');
    }
  }

  /** With a depth of zero a started unit reads for ever; without rows it never gets past the first tiles. */
  lemma {:induction false} StaysBusy(u: Unit, size: Command, a: seq<uint32>, b: seq<uint32>, t: nat)
    requires |a| == |b| == |u.result| == DEPTH && AtRest(u.machine) && 0 < size.n
    requires size.k == 0 || size.m == 0
    ensures Stuck(RunFor(u, size, a, b, t).machine.control, size)
  {
    hide Clock, NextWriter, Fall;
    if t > 0 {
      StaysBusy(u, size, a, b, t - 1);
      var now := RunFor(u, size, a, b, t - 1);
      hide NextControl, Stuck, RunFor;
      StaysStuck(now.machine.control, size, WriteBusy(now.machine));
      NextOf(u, size, a, b, t);
    }
  }

  lemma NextOf(u: Unit, size: Command, a: seq<uint32>, b: seq<uint32>, t: nat)
    requires |a| == |b| == |u.result| == DEPTH && 0 < t
    ensures RunFor(u, size, a, b, t) == Next(RunFor(u, size, a, b, t - 1), None, a, b)
  {
  }

  /** A unit started on at least one column comes back to idle exactly when it has rows and a depth. */
  lemma ReturnsIff(u: Unit, size: Command, a: seq<uint32>, b: seq<uint32>)
    requires |a| == |b| == |u.result| == DEPTH && AtRest(u.machine)
    requires size.k < 0x100 && size.m < 0x100 && 0 < size.n < 0x100
    ensures (exists t :: IdleAt(u, size, a, b, t)) <==> size.k > 0 && size.m > 0
  {
    hide AtRest, Tick, Fall, Tracks, RunResult;
    if size.k > 0 && size.m > 0 {
      var c := u.machine.control;
      var g := Started(u.machine, u.result, size, a, b, a[c.aIndex % DEPTH], b[c.bIndex % DEPTH]);
      var end := Finishes(u, size, a, b, 0, g);
    } else {
      forall t: nat ensures !IdleAt(u, size, a, b, t) {
        StaysBusy(u, size, a, b, t);
      }
    }
  }
}
