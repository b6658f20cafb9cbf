/** The tile controller of the CFU's matrix unit and the buffer that writes its results (TPU and write_buffer of
    cfu.v), register by register, with the systolic array between them. */
module TileControl {
  import opened Words
  import opened Wrappers
  import opened Systolic

  /** The words or rows of a buffer: ten bits of an index are decoded. */
  const DEPTH: nat := 1024

  /** The number of four-wide tiles that cover v rows or columns. */
  function Tiles(v: nat): nat {
    v / 4 + (if v % 4 != 0 then 1 else 0)
  }

  // ---------- registers ----------

  /** What starts the unit: depth, rows, columns and the eight offset bits that pass its port. */
  datatype Command = Command(k: nat, m: nat, n: nat, offset: nat)
  {
    predicate Valid() { 0 < k < 0x100 && 0 < m < 0x100 && 0 < n < 0x100 }
  }

  datatype Phase = Idle | PassData | Wait6 | WaitForWrite

  /** The controller's registers: its phase, the sizes and offset it was started with, the tile it is at, its cycle
      counter and the three buffer indices. */
  datatype Control = Control(phase: Phase, size: Command, m: nat, n: nat, counter: nat,
                             aIndex: nat, bIndex: nat, cIndex: nat)

  datatype WriterPhase = WriterIdle | LoadData | Write

  /** The registers of the write buffer: four rows of sums on their way to the result memory. */
  datatype Writer = Writer(phase: WriterPhase, counter: nat, index: nat, rows: Bank<int32>)

  datatype Machine = Machine(control: Control, writer: Writer, grid: Registers)

  // ---------- one clock cycle ----------

  predicate SaDone(c: Control) { c.phase.Wait6? && c.counter == 6 }

  predicate WriteBusy(s: Machine) { !s.writer.phase.WriterIdle? || SaDone(s.control) }

  /** The last reading cycle; a depth of zero never gets there. */
  predicate LastWord(c: Control) { c.size.k > 0 && c.counter >= c.size.k - 1 }

  predicate LastRowTile(c: Control) { c.m == Tiles(c.size.m) - 1 }

  function NextPhase(c: Control, starts: bool, writeBusy: bool): Phase {
    match c.phase
    case Idle => if starts then PassData else Idle
    case PassData => if LastWord(c) then Wait6 else PassData
    case Wait6 => if c.counter != 6 then Wait6 else if c.n == Tiles(c.size.n) then WaitForWrite else PassData
    case WaitForWrite => if writeBusy then WaitForWrite else Idle
  }

  /** A buffer index: set for the next tile in cycle 6, counted up while data is passed, cleared when idle. */
  function NextIndex(c: Control, index: nat, tileStart: nat, counts: bool): nat {
    if !c.phase.PassData? && c.counter == 6 then tileStart
    else if counts && c.phase.PassData? && !LastWord(c) then index + 1
    else if c.phase.Idle? then 0
    else index
  }

  /** The first word of a tile. */
  function TileStart(k: nat, tile: nat): nat { tile * k }

  /** The first result row of a tile. */
  function TileRow(m: nat, mTile: nat, nTile: nat): nat { nTile * m + mTile * 4 }

  /** The tile numbers move on in waiting cycle 5 and are cleared when idle. */
  function NextM(c: Control): nat {
    if Advances(c) then (if LastRowTile(c) then 0 else (c.m + 1) % 0x100) else if c.phase.Idle? then 0 else c.m
  }

  function NextN(c: Control): nat {
    if Advances(c) && LastRowTile(c) then (c.n + 1) % 0x100 else if c.phase.Idle? then 0 else c.n
  }

  predicate Advances(c: Control) { !c.phase.PassData? && c.counter == 5 }

  function NextControl(c: Control, start: Option<Command>, writeBusy: bool): Control {
    var phase := NextPhase(c, start.Some?, writeBusy);
    Control(
      phase,
      if start.Some? then start.value else c.size,
      NextM(c),
      NextN(c),
      if c.phase.Idle? || c.phase != phase then 0 else (c.counter + 1) % 0x200,
      NextIndex(c, c.aIndex, TileStart(c.size.k, c.m), true),
      NextIndex(c, c.bIndex, TileStart(c.size.k, c.n), true),
      NextIndex(c, c.cIndex, TileRow(c.size.m, c.m, c.n), false))
  }

  /** The sums are taken over as the write buffer enters its loading state, one edge after the array is done. */
  function NextWriter(w: Writer, saDone: bool, startIndex: nat, sums: Bank<int32>): Writer {
    var last := w.counter == 3 || !w.phase.Write?;
    Writer(
      (match w.phase
       case WriterIdle => if saDone then LoadData else WriterIdle
       case LoadData => Write
       case Write => if w.counter == 3 then WriterIdle else Write),
      if last then 0 else w.counter + 1,
      if saDone then startIndex else if last then w.index else w.index + 1,
      if w.phase.WriterIdle? && saDone then sums else w.rows)
  }

  /** The rising edge, with the words that the two data memories show. */
  function Tick(s: Machine, start: Option<Command>, wa: uint32, wb: uint32): Machine {
    var grid := Clock(s.grid, s.control.size.offset, s.control.phase.PassData?, wa, wb);
    Machine(NextControl(s.control, start, WriteBusy(s)),
            NextWriter(s.writer, SaDone(s.control), s.control.cIndex, grid.acc),
            grid)
  }

  function SumRow(acc: Bank<int32>, i: nat): (row: seq<int32>)
    ensures |row| == 4
  {
    [acc(i, 0), acc(i, 1), acc(i, 2), acc(i, 3)]
  }

  /** The falling edge before it, on the result memory. */
  function Fall(result: seq<seq<int32>>, w: Writer): (result': seq<seq<int32>>)
    requires |result| == DEPTH
    ensures |result'| == DEPTH
  {
    if w.phase.Write? then result[w.index % DEPTH := SumRow(w.rows, w.counter)] else result
  }

  /** Nothing in progress. */
  ghost predicate AtRest(s: Machine) {
    && s.control.phase.Idle? && s.control.counter == 0
    && s.writer.phase.WriterIdle? && s.writer.counter == 0
    && Flushed(s.grid)
  }

  const RESET := Machine(
    Control(Idle, Command(0, 0, 0, 0), 0, 0, 0, 0, 0, 0),
    Writer(WriterIdle, 0, 0, (i: nat, j: nat) => 0),
    Registers((l: nat, p: nat) => 0, (l: nat, p: nat) => 0, (l: nat, p: nat) => false, false, false,
              (i: nat, j: nat) => 0, (i: nat, j: nat) => 0, (i: nat, j: nat) => false, (i: nat, j: nat) => 0))

  lemma ResetAtRest()
    ensures AtRest(RESET)
  {
  }

  lemma FlushedStays(s: Registers, offset: int, wa: uint32, wb: uint32)
    requires Flushed(s)
    ensures Flushed(Clock(s, offset, false, wa, wb))
  {
    hide Clock;
    FlightStep(s, offset, [], [], 0, wa, wb);
    NothingInFlight(Clock(s, offset, false, wa, wb));
  }

  lemma NothingInFlight(s: Registers)
    requires InFlight(s, [], [], 1)
    ensures Flushed(s)
  {
    hide TopLane;
  }

  /** An idle unit stays at rest until it is started. */
  lemma RestStays(s: Machine, wa: uint32, wb: uint32)
    requires AtRest(s)
    ensures AtRest(Tick(s, None, wa, wb))
  {
    hide Clock, Flushed;
    FlushedStays(s.grid, s.control.size.offset, wa, wb);
  }

  // ---------- the controller in a tile ----------

  function NextRowTile(size: Command, mTile: nat): nat {
    if mTile == Tiles(size.m) - 1 then 0 else mTile + 1
  }

  function NextColumnTile(size: Command, mTile: nat, nTile: nat): nat {
    if mTile == Tiles(size.m) - 1 then nTile + 1 else nTile
  }

  /** The controller in cycle t of a tile: k reading cycles and seven waiting ones. */
  predicate InTile(c: Control, size: Command, mTile: nat, nTile: nat, t: nat) {
    && size.Valid() && c.size == size && mTile < Tiles(size.m) && nTile < Tiles(size.n) && t < size.k + 7
    && c.phase == (if t < size.k then PassData else Wait6)
    && c.counter == (if t < size.k then t else t - size.k)
    && c.aIndex == TileStart(size.k, mTile) + Clamp(t, size.k - 1)
    && c.bIndex == TileStart(size.k, nTile) + Clamp(t, size.k - 1)
    && c.cIndex == TileRow(size.m, mTile, nTile)
    && c.m == (if t < size.k + 6 then mTile else NextRowTile(size, mTile))
    && c.n == (if t < size.k + 6 then nTile else NextColumnTile(size, mTile, nTile))
  }

  /** The controller in the cycles after the last tile. */
  predicate Ending(c: Control, t: nat) {
    c.phase.WaitForWrite? && c.counter == t <= 5
  }

  lemma Starts(s: Machine, size: Command)
    requires AtRest(s) && size.Valid()
    ensures InTile(NextControl(s.control, Some(size), false), size, 0, 0, 0)
  {
  }

  lemma InTileStep(c: Control, size: Command, mTile: nat, nTile: nat, t: nat, writeBusy: bool)
    requires size.Valid() && InTile(c, size, mTile, nTile, t) && t < size.k + 6
    ensures InTile(NextControl(c, None, writeBusy), size, mTile, nTile, t + 1)
  {
    if t < size.k {
      Reads(c, size, mTile, nTile, t, writeBusy);
    } else if t < size.k + 5 {
      Waits(c, size, mTile, nTile, t, writeBusy);
    } else {
      LastWait(c, size, mTile, nTile, writeBusy);
    }
  }

  lemma Reads(c: Control, size: Command, mTile: nat, nTile: nat, t: nat, writeBusy: bool)
    requires size.Valid() && InTile(c, size, mTile, nTile, t) && t < size.k
    ensures InTile(NextControl(c, None, writeBusy), size, mTile, nTile, t + 1)
  {
    hide TileStart, TileRow, Tiles, NextRowTile, NextColumnTile;
    assert LastWord(c) == (t == size.k - 1);
  }

  lemma Waits(c: Control, size: Command, mTile: nat, nTile: nat, t: nat, writeBusy: bool)
    requires size.Valid() && InTile(c, size, mTile, nTile, t) && size.k <= t < size.k + 5
    ensures InTile(NextControl(c, None, writeBusy), size, mTile, nTile, t + 1)
  {
    hide TileStart, TileRow, LastWord, NextRowTile, NextColumnTile, Tiles;
  }

  /** The cycle in which the tile numbers move on. */
  lemma LastWait(c: Control, size: Command, mTile: nat, nTile: nat, writeBusy: bool)
    requires size.Valid() && InTile(c, size, mTile, nTile, size.k + 5)
    ensures InTile(NextControl(c, None, writeBusy), size, mTile, nTile, size.k + 6)
  {
    hide TileStart, TileRow, NextRowTile, NextColumnTile, NextControl, Tiles;
    TilesAdvance(c, writeBusy);
  }

  lemma TilesAdvance(c: Control, writeBusy: bool)
    requires c.size.Valid() && c.phase.Wait6? && c.counter == 5 && c.m < Tiles(c.size.m) && c.n < Tiles(c.size.n)
    ensures NextControl(c, None, writeBusy)
         == c.(counter := 6, m := NextRowTile(c.size, c.m), n := NextColumnTile(c.size, c.m, c.n))
  {
    hide TileStart, TileRow, LastWord, Tiles;
    NumbersAdvance(c);
    IndexStays(c, c.aIndex, TileStart(c.size.k, c.m), true);
    IndexStays(c, c.bIndex, TileStart(c.size.k, c.n), true);
    IndexStays(c, c.cIndex, TileRow(c.size.m, c.m, c.n), false);
    hide NextIndex, NextM, NextN, NextRowTile, NextColumnTile;
  }

  lemma NumbersAdvance(c: Control)
    requires c.size.Valid() && c.phase.Wait6? && c.counter == 5 && c.m < Tiles(c.size.m) && c.n < Tiles(c.size.n)
    ensures NextM(c) == NextRowTile(c.size, c.m) && NextN(c) == NextColumnTile(c.size, c.m, c.n)
  {
    FewTiles(c.size.m);
    FewTiles(c.size.n);
    hide Tiles;
  }

  lemma FewTiles(x: nat)
    requires x < 0x100
    ensures Tiles(x) < 0x80
  {
  }

  lemma IndexStays(c: Control, index: nat, tileStart: nat, counts: bool)
    requires c.phase.Wait6? && c.counter == 5
    ensures NextIndex(c, index, tileStart, counts) == index
  {
  }

  /** A controller that lacks a depth or rows reads for ever, or stays with the first tiles. */
  predicate Stuck(c: Control, size: Command) {
    c.size == size && c.n == 0 && (c.phase.PassData? || (size.k > 0 && c.phase.Wait6?))
  }

  lemma StaysStuck(c: Control, size: Command, writeBusy: bool)
    requires Stuck(c, size) && 0 < size.n && (size.k == 0 || size.m == 0)
    ensures Stuck(NextControl(c, None, writeBusy), size)
  {
    hide NextIndex;
  }

  lemma TileEnds(c: Control, size: Command, mTile: nat, nTile: nat, writeBusy: bool)
    requires size.Valid() && InTile(c, size, mTile, nTile, size.k + 6)
    ensures SaDone(c)
    ensures var c' := NextControl(c, None, writeBusy);
      if NextColumnTile(size, mTile, nTile) == Tiles(size.n) then Ending(c', 0)
      else InTile(c', size, NextRowTile(size, mTile), NextColumnTile(size, mTile, nTile), 0)
  {
  }

  lemma EndingStep(c: Control, t: nat, writeBusy: bool)
    requires Ending(c, t) && writeBusy == (t < 5)
    ensures var c' := NextControl(c, None, writeBusy);
      if t < 5 then Ending(c', t + 1) else c'.phase.Idle? && c'.counter == 0
  {
  }

  // ---------- the write buffer ----------

  /** Four rows of sums to be written from row `at` on. */
  datatype Pending = Pending(at: nat, sums: Bank<int32>)

  /** The write buffer t cycles after it took over the sums. */
  ghost predicate WriterAt(w: Writer, pending: Option<Pending>, t: nat) {
    if pending.None? || t >= 5 then w.phase.WriterIdle? && w.counter == 0
    else
      && w.rows == pending.value.sums
      && (if t == 0 then w.phase.LoadData? && w.counter == 0 && w.index == pending.value.at
          else w.phase.Write? && w.counter == t - 1 && w.index == pending.value.at + t - 1)
  }

  /** How many rows after row `at` row x comes, going round at the end of the memory. */
  function RowsAfter(x: nat, at: nat): (d: nat)
    ensures d < DEPTH
  {
    (x - at) % DEPTH
  }

  /** The result memory with the first n of the rows written; rows past its end go round to its start. */
  function WithRows(base: seq<seq<int32>>, p: Pending, n: nat): (result: seq<seq<int32>>)
    requires |base| == DEPTH && n <= 4
    ensures |result| == DEPTH
    ensures forall x :: 0 <= x < DEPTH ==>
      result[x] == if RowsAfter(x, p.at) < n then SumRow(p.sums, RowsAfter(x, p.at)) else base[x]
  {
    if n == 0 then base
    else
      RowWritten(p.at, n - 1);
      WithRows(base, p, n - 1)[(p.at + n - 1) % DEPTH := SumRow(p.sums, n - 1)]
  }

  lemma RowWritten(at: nat, i: nat)
    requires i < 4
    ensures forall x: nat :: x < DEPTH ==> (RowsAfter(x, at) == i <==> x == (at + i) % DEPTH)
  {
  }

  function Written(base: seq<seq<int32>>, pending: Option<Pending>, t: nat): (result: seq<seq<int32>>)
    requires |base| == DEPTH
    ensures |result| == DEPTH
  {
    if pending.None? then base else WithRows(base, pending.value, Clamp(t - 1, 4))
  }

  lemma WriterStep(w: Writer, base: seq<seq<int32>>, pending: Option<Pending>, t: nat, startIndex: nat,
                   sums: Bank<int32>)
    requires |base| == DEPTH && WriterAt(w, pending, t)
    ensures WriterAt(NextWriter(w, false, startIndex, sums), pending, t + 1)
    ensures Fall(Written(base, pending, t), w) == Written(base, pending, t + 1)
  {
    if pending.Some? && 1 <= t <= 4 {
      WritesRow(w, base, pending.value, t, startIndex, sums);
    } else {
      hide WithRows, SumRow;
    }
  }

  lemma WritesRow(w: Writer, base: seq<seq<int32>>, p: Pending, t: nat, startIndex: nat, sums: Bank<int32>)
    requires |base| == DEPTH && 1 <= t <= 4 && WriterAt(w, Some(p), t)
    ensures WriterAt(NextWriter(w, false, startIndex, sums), Some(p), t + 1)
    ensures Fall(WithRows(base, p, t - 1), w) == WithRows(base, p, t)
  {
    hide SumRow;
  }

  lemma WriterTakes(w: Writer, base: seq<seq<int32>>, pending: Option<Pending>, t: nat, startIndex: nat,
                    sums: Bank<int32>)
    requires |base| == DEPTH && WriterAt(w, pending, t) && t >= 5
    ensures WriterAt(NextWriter(w, true, startIndex, sums), Some(Pending(startIndex, sums)), 0)
    ensures Fall(Written(base, pending, t), w) == Written(base, pending, 5)
  {
  }
}
