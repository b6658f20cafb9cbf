/** The Lattice LRAM blocks behind one Wishbone port (NXLRAM of soc/hps_lattice_nx.py, 32 bits wide): stacked one after
    the other, or striped word by word. */
module Lram {
  import opened Words

  const ROWS: nat := 16384

  datatype Word = Word(b0: uint8, b1: uint8, b2: uint8, b3: uint8)

  datatype ByteSelect = ByteSelect(s0: bool, s1: bool, s2: bool, s3: bool)

  /** The selected bytes come from `new`, the others from `old_`. */
  function Merge(old_: Word, new_: Word, sel: ByteSelect): Word {
    Word(if sel.s0 then new_.b0 else old_.b0, if sel.s1 then new_.b1 else old_.b1,
         if sel.s2 then new_.b2 else old_.b2, if sel.s3 then new_.b3 else old_.b3)
  }

  /** n blocks; striped ones must be a power of two in number. */
  datatype Layout = Layout(n: nat, striped: bool)
  {
    predicate Valid() {
      if striped then n in {1, 2, 4} else n in {1, 2, 3, 4, 5}
    }

    /** Two to the number of block-select bits. */
    function SelectRange(): nat
      requires Valid()
    {
      if n == 3 then 4 else if n == 5 then 8 else n
    }

    /** The block a bus address selects; none when it is not below n. */
    function Block(adr: nat): nat
      requires Valid()
    {
      if striped then adr % n else adr / ROWS % SelectRange()
    }

    /** The fourteen address bits that go to the block. */
    function Row(adr: nat): nat
      requires Valid()
    {
      if striped then adr / n % ROWS else adr % ROWS
    }

    /** The position of a block's row in the flat word array. */
    function Flat(block: nat, row: nat): nat {
      if striped then row * n + block else block * ROWS + row
    }
  }

  /** What the bus master drives in one cycle. */
  datatype Bus = Bus(cyc: bool, stb: bool, we: bool, sel: ByteSelect, adr: nat, datW: Word)

  /** The memory cells, the output register of each block, and the acknowledge register. */
  datatype State = State(blocks: seq<seq<Word>>, outputs: seq<Word>, ack: bool)
  {
    predicate Valid(l: Layout) {
      |blocks| == |outputs| == l.n && forall d :: 0 <= d < l.n ==> |blocks[d]| == ROWS
    }
  }

  predicate Requests(b: Bus) { b.stb && b.cyc }

  /** The data the port shows in a cycle: the output of the selected block. */
  function DatR(l: Layout, s: State, b: Bus): Word
    requires l.Valid() && s.Valid(l)
  {
    if l.Block(b.adr) < l.n then s.outputs[l.Block(b.adr)] else Word(0, 0, 0, 0)
  }

  /** One clock edge. A block reads when it is selected and not written. */
  function Edge(l: Layout, s: State, b: Bus): (s': State)
    requires l.Valid() && s.Valid(l)
    ensures s'.Valid(l)
  {
    var d, row := l.Block(b.adr), l.Row(b.adr);
    var ack := Requests(b) && !s.ack;
    if d >= l.n then s.(ack := ack)
    else if b.we && Requests(b) then
      State(s.blocks[d := s.blocks[d][row := Merge(s.blocks[d][row], b.datW, b.sel)]], s.outputs, ack)
    else State(s.blocks, s.outputs[d := s.blocks[d][row]], ack)
  }

  class Nxlram {
    const layout: Layout
    var blocks: seq<seq<Word>>
    var outputs: seq<Word>
    var ack: bool

    function Now(): State
      reads this
    {
      State(blocks, outputs, ack)
    }

    /** A memory with the given contents. */
    constructor (layout: Layout, blocks: seq<seq<Word>>)
      requires layout.Valid() && |blocks| == layout.n && forall d :: 0 <= d < layout.n ==> |blocks[d]| == ROWS
      ensures this.layout == layout && Now().Valid(layout) && !Now().ack && Now().blocks == blocks
    {
      this.layout, this.blocks := layout, blocks;
      outputs, ack := seq(layout.n, _ => Word(0, 0, 0, 0)), false;
    }

    /** One clock cycle: the outputs of the port, then the edge. */
    method Cycle(b: Bus) returns (datR: Word, acknowledged: bool)
      requires layout.Valid() && Now().Valid(layout)
      modifies this
      ensures Now() == Edge(layout, old(Now()), b)
      ensures datR == DatR(layout, old(Now()), b) && acknowledged == old(ack)
    {
      var wren := b.we && b.stb && b.cyc;
      datR, acknowledged := Word(0, 0, 0, 0), ack;
      var d, row := layout.Block(b.adr), layout.Row(b.adr);
      if d < layout.n {
        datR := outputs[d];
        if wren {
          blocks := blocks[d := blocks[d][row := Merge(blocks[d][row], b.datW, b.sel)]];
        } else {
          outputs := outputs[d := blocks[d][row]];
        }
      }
      ack := b.stb && b.cyc && !ack;
    }
  }

  // ---------- one flat word array ----------

  /** The memory as the bus sees it. */
  function FlatView(l: Layout, s: State): (flat: seq<Word>)
    requires l.Valid() && s.Valid(l)
    ensures |flat| == l.n * ROWS
  {
    seq(l.n * ROWS, i requires 0 <= i < l.n * ROWS =>
      if l.striped then StripedCell(l, i); s.blocks[i % l.n][i / l.n] else s.blocks[i / ROWS][i % ROWS])
  }

  lemma StripedCell(l: Layout, i: nat)
    requires l.Valid() && i < l.n * ROWS
    ensures 0 <= i / l.n < ROWS && 0 <= i % l.n < l.n
  {
  }

  /** A read or write that the master holds until it is acknowledged. */
  datatype Request = Read(adr: nat) | Write(adr: nat, data: Word, sel: ByteSelect)

  function Held(r: Request, anySelect: ByteSelect, anyData: Word): Bus {
    match r
    case Read(adr) => Bus(true, true, false, anySelect, adr, anyData)
    case Write(adr, data, sel) => Bus(true, true, true, sel, adr, data)
  }

  /** A cell's place in the flat array, and back. */
  lemma FlatPlace(l: Layout, d: nat, row: nat)
    requires l.Valid() && d < l.n && row < ROWS
    ensures l.Flat(d, row) < l.n * ROWS
    ensures l.striped ==> l.Flat(d, row) % l.n == d && l.Flat(d, row) / l.n == row
    ensures !l.striped ==> l.Flat(d, row) / ROWS == d && l.Flat(d, row) % ROWS == row
  {
    if l.striped {
      DivModUnique(row * l.n + d, l.n, row, d);
      MulMono(l.n, row + 1, ROWS);
    } else {
      DivModUnique(d * ROWS + row, ROWS, d, row);
    }
  }

  lemma PlaceOf(l: Layout, i: nat)
    requires l.Valid() && i < l.n * ROWS
    ensures if l.striped then i == l.Flat(i % l.n, i / l.n) else i == l.Flat(i / ROWS, i % ROWS)
  {
  }

  /** Row `row` of block d is one element of the flat array; in the striped form, element row*n + d. */
  lemma CellInFlat(l: Layout, s: State, d: nat, row: nat)
    requires l.Valid() && s.Valid(l) && d < l.n && row < ROWS
    ensures l.Flat(d, row) < l.n * ROWS && FlatView(l, s)[l.Flat(d, row)] == s.blocks[d][row]
  {
  }

  /** The second port of block d of a striped memory reads the flat words d, n + d, 2n + d, ... in order. */
  lemma PortBReadsStripe(l: Layout, s: State, d: nat, address: nat)
    requires l.Valid() && s.Valid(l) && l.striped && d < l.n && address < ROWS
    ensures address * l.n + d < l.n * ROWS && s.blocks[d][address] == FlatView(l, s)[address * l.n + d]
  {
  }

  /** Addresses inside the memory reach the flat word of the same number. */
  lemma AddressIsFlat(l: Layout, adr: nat)
    requires l.Valid() && adr < l.n * ROWS
    ensures l.Block(adr) < l.n && l.Flat(l.Block(adr), l.Row(adr)) == adr
  {
    PlaceOf(l, adr);
    if l.striped {
      StripedCell(l, adr);
    }
  }

  function Written(flat: seq<Word>, adr: nat, data: Word, sel: ByteSelect): seq<Word> {
    if adr < |flat| then flat[adr := Merge(flat[adr], data, sel)] else flat
  }

  /** A flat array with one write port: what a request does to it, and what a read returns. */
  function FlatAfter(flat: seq<Word>, r: Request): seq<Word> {
    match r
    case Read(_) => flat
    case Write(adr, data, sel) => Written(flat, adr, data, sel)
  }

  lemma WriteOneCell(l: Layout, s: State, d: nat, row: nat, w: Word)
    requires l.Valid() && s.Valid(l) && d < l.n && row < ROWS
    ensures var s' := s.(blocks := s.blocks[d := s.blocks[d][row := w]]);
      s'.Valid(l) && l.Flat(d, row) < l.n * ROWS && FlatView(l, s') == FlatView(l, s)[l.Flat(d, row) := w]
  {
    var s' := s.(blocks := s.blocks[d := s.blocks[d][row := w]]);
    FlatPlace(l, d, row);
    forall i | 0 <= i < l.n * ROWS ensures FlatView(l, s')[i] == FlatView(l, s)[l.Flat(d, row) := w][i] {
      PlaceOf(l, i);
    }
  }

  /** An edge acts on the flat array as one write, or not at all. */
  lemma EdgeIsFlat(l: Layout, s: State, b: Bus)
    requires l.Valid() && s.Valid(l) && b.adr < l.n * ROWS
    ensures FlatView(l, Edge(l, s, b)) ==
      if b.we && Requests(b) then Written(FlatView(l, s), b.adr, b.datW, b.sel) else FlatView(l, s)
  {
    AddressIsFlat(l, b.adr);
    var d, row := l.Block(b.adr), l.Row(b.adr);
    CellInFlat(l, s, d, row);
    hide FlatView;
    if b.we && Requests(b) {
      var w := Merge(s.blocks[d][row], b.datW, b.sel);
      WriteOneCell(l, s, d, row, w);
      SameCells(l, Edge(l, s, b), s.(blocks := s.blocks[d := s.blocks[d][row := w]]));
    } else {
      SameCells(l, Edge(l, s, b), s);
    }
  }

  lemma SameCells(l: Layout, s: State, t: State)
    requires l.Valid() && s.Valid(l) && t.Valid(l) && s.blocks == t.blocks
    ensures FlatView(l, s) == FlatView(l, t)
  {
  }

  lemma MergeTwice(old_: Word, new_: Word, sel: ByteSelect)
    ensures Merge(Merge(old_, new_, sel), new_, sel) == Merge(old_, new_, sel)
  {
  }

  /** A held request takes two cycles, is acknowledged in the second only, and acts on the flat array once, though a
      write reaches the block at both edges; a read shows the flat word while it is acknowledged. */
  lemma RequestIsFlat(l: Layout, s: State, r: Request, anySelect: ByteSelect, anyData: Word)
    requires l.Valid() && s.Valid(l) && !s.ack && r.adr < l.n * ROWS
    ensures var b := Held(r, anySelect, anyData);
      var s1 := Edge(l, s, b);
      var s2 := Edge(l, s1, b);
      && s1.ack && !s2.ack
      && FlatView(l, s2) == FlatAfter(FlatView(l, s), r)
      && (r.Read? ==> DatR(l, s1, b) == FlatView(l, s)[r.adr])
  {
    var b := Held(r, anySelect, anyData);
    var s1 := Edge(l, s, b);
    AddressIsFlat(l, r.adr);
    CellInFlat(l, s, l.Block(r.adr), l.Row(r.adr));
    EdgeIsFlat(l, s, b);
    EdgeIsFlat(l, s1, b);
    hide FlatView;
    if r.Write? {
      MergeTwice(FlatView(l, s)[r.adr], r.data, r.sel);
    }
  }

  // ---------- whole runs ----------

  /** A run is a list of held requests, with idle cycles of any kind between them. */
  datatype Event = Idle(bus: Bus) | Do(request: Request, anySelect: ByteSelect, anyData: Word)

  predicate Legal(l: Layout, run: seq<Event>)
    requires l.Valid()
  {
    forall e :: e in run ==> if e.Idle? then !Requests(e.bus) else e.request.adr < l.n * ROWS
  }

  /** The memory after a run, and the data of its reads in order. */
  function Run(l: Layout, s: State, run: seq<Event>): (r: (State, seq<Word>))
    requires l.Valid() && s.Valid(l)
    ensures r.0.Valid(l)
  {
    if run == [] then (s, [])
    else
      var (before, data) := Run(l, s, run[..|run| - 1]);
      match run[|run| - 1]
      case Idle(bus) => (Edge(l, before, bus), data)
      case Do(request, anySelect, anyData) =>
        var b := Held(request, anySelect, anyData);
        var acking := Edge(l, before, b);
        (Edge(l, acking, b), if request.Read? then data + [DatR(l, acking, b)] else data)
  }

  /** The same run on a plain word array. */
  function FlatRun(flat: seq<Word>, run: seq<Event>): (r: (seq<Word>, seq<Word>))
    requires forall e :: e in run ==> e.Idle? || e.request.adr < |flat|
    ensures |r.0| == |flat|
  {
    if run == [] then (flat, [])
    else
      var last := run[|run| - 1];
      assert last in run;
      var (before, data) := FlatRun(flat, run[..|run| - 1]);
      if last.Idle? then (before, data)
      else (FlatAfter(before, last.request), if last.request.Read? then data + [before[last.request.adr]] else data)
  }

  /** For every run of held requests the blocks behave as one flat array of words: same data, same final contents. */
  lemma {:induction false} RunIsFlat(l: Layout, s: State, run: seq<Event>)
    requires l.Valid() && s.Valid(l) && !s.ack && Legal(l, run)
    ensures !Run(l, s, run).0.ack
    ensures FlatView(l, Run(l, s, run).0) == FlatRun(FlatView(l, s), run).0
    ensures Run(l, s, run).1 == FlatRun(FlatView(l, s), run).1
  {
    hide FlatView, Edge, DatR;
    if run != [] {
      var init, last := run[..|run| - 1], run[|run| - 1];
      assert last in run;
      RunIsFlat(l, s, init);
      var before := Run(l, s, init).0;
      match last {
        case Idle(bus) =>
          IdleChangesNothing(l, before, bus);
        case Do(request, anySelect, anyData) =>
          RequestIsFlat(l, before, request, anySelect, anyData);
      }
    }
  }

  lemma IdleChangesNothing(l: Layout, s: State, b: Bus)
    requires l.Valid() && s.Valid(l) && !Requests(b)
    ensures !Edge(l, s, b).ack && FlatView(l, Edge(l, s, b)) == FlatView(l, s)
  {
  }

  // ---------- byte by byte ----------

  /** Byte i of a word and its select line, counting from the low byte. */
  function ByteOf(w: Word, i: nat): uint8
    requires i < 4
  {
    match i
    case 0 => w.b0
    case 1 => w.b1
    case 2 => w.b2
    case _ => w.b3
  }

  predicate Selects(sel: ByteSelect, i: nat)
    requires i < 4
  {
    (i == 0 && sel.s0) || (i == 1 && sel.s1) || (i == 2 && sel.s2) || (i == 3 && sel.s3)
  }

  /** Byte i at an address after a run: that of the last write there with its select line set, else the one before the
      run. */
  function LastByte(run: seq<Event>, adr: nat, i: nat, before: uint8): uint8
    requires i < 4
  {
    if run == [] then before
    else
      match run[|run| - 1]
      case Do(Write(a, data, sel), _, _) =>
        if a == adr && Selects(sel, i) then ByteOf(data, i) else LastByte(run[..|run| - 1], adr, i, before)
      case _ => LastByte(run[..|run| - 1], adr, i, before)
  }

  /** The word of the four bytes last written. */
  function LastWord(run: seq<Event>, adr: nat, before: Word): Word {
    Word(LastByte(run, adr, 0, before.b0), LastByte(run, adr, 1, before.b1),
         LastByte(run, adr, 2, before.b2), LastByte(run, adr, 3, before.b3))
  }

  lemma {:induction false} FlatHoldsLastWord(flat: seq<Word>, run: seq<Event>, adr: nat)
    requires adr < |flat| && forall e :: e in run ==> e.Idle? || e.request.adr < |flat|
    ensures FlatRun(flat, run).0[adr] == LastWord(run, adr, flat[adr])
  {
    if run != [] {
      assert run[|run| - 1] in run;
      FlatHoldsLastWord(flat, run[..|run| - 1], adr);
    }
  }

  /** After every run, a read returns in each byte the last one written to that place. */
  lemma ReadsLastWord(l: Layout, s: State, run: seq<Event>, adr: nat, anySelect: ByteSelect, anyData: Word)
    requires l.Valid() && s.Valid(l) && !s.ack && Legal(l, run) && adr < l.n * ROWS
    ensures var data := Run(l, s, run + [Do(Read(adr), anySelect, anyData)]).1;
      |data| > 0 && data[|data| - 1] == LastWord(run, adr, FlatView(l, s)[adr])
  {
    var read := Do(Read(adr), anySelect, anyData);
    var all := run + [read];
    assert all[..|all| - 1] == run && all[|all| - 1] == read;
    RunIsFlat(l, s, all);
    hide FlatView, Run, LastWord;
    FlatHoldsLastWord(FlatView(l, s), run, adr);
  }

  // ---------- addresses beyond the memory ----------

  /** The first power of two, from p on, that is at least n. */
  function PowerFrom(p: nat, n: nat): nat
    requires p > 0
    decreases if p < n then n - p else 0
  {
    if n <= p then p else PowerFrom(2 * p, n)
  }

  /** Only as many address bits as the number of blocks needs are decoded. Within that range an address above the last
      block selects none: it reads as zero and a write there is lost. */
  lemma AddressDecodes(l: Layout, adr: nat)
    requires l.Valid()
    ensures var a := adr % (PowerFrom(1, l.n) * ROWS);
      if a < l.n * ROWS then l.Block(adr) < l.n && l.Flat(l.Block(adr), l.Row(adr)) == a else l.Block(adr) >= l.n
  {
    PowersOfTwo();
    var p := PowerFrom(1, l.n);
    var a, q := adr % (p * ROWS), adr / (p * ROWS);
    assert adr == q * (p * ROWS) + a;
    SplitAddress(l, p, q, a);
    hide PowerFrom;
  }

  lemma PowersOfTwo()
    ensures PowerFrom(1, 1) == 1 && PowerFrom(1, 2) == 2 && PowerFrom(1, 3) == 4 && PowerFrom(1, 4) == 4
    ensures PowerFrom(1, 5) == 8
  {
  }

  lemma SplitAddress(l: Layout, p: nat, q: nat, a: nat)
    requires l.Valid() && p == l.SelectRange() && a < p * ROWS
    ensures l.Block(q * (p * ROWS) + a) == l.Block(a) && l.Row(q * (p * ROWS) + a) == l.Row(a)
    ensures if a < l.n * ROWS then l.Block(a) < l.n && l.Flat(l.Block(a), l.Row(a)) == a else l.Block(a) >= l.n
  {
    if a < l.n * ROWS {
      AddressIsFlat(l, a);
    }
    if l.striped {
      SplitTwice(p, ROWS, q, a);
    } else {
      SplitTwice(ROWS, p, q, a);
    }
  }

  /** The low digits in two bases do not change with what is above them. */
  lemma SplitTwice(m: nat, n: nat, q: nat, a: nat)
    requires m > 0 && n > 0 && a < m * n
    ensures var v := q * (n * m) + a; v % m == a % m && v / m % n == a / m
    ensures n * m == m * n
  {
    var d, r := a / m, a % m;
    MulMono(m, n, d);
    assert a == d * m + r;
    assert q * (n * m) + a == (q * n + d) * m + r by { Regroup(q, n, m, d, r); }
    DivModUnique(q * (n * m) + a, m, q * n + d, r);
    DivModUnique(q * n + d, n, q, d);
  }

  lemma Regroup(q: int, n: int, m: int, d: int, r: int)
    ensures q * (n * m) + (d * m + r) == (q * n + d) * m + r
  {
  }

  /** Outside the blocks an edge changes no cell and the port shows zero. */
  lemma OutsideIsNothing(l: Layout, s: State, b: Bus)
    requires l.Valid() && s.Valid(l) && l.Block(b.adr) >= l.n
    ensures Edge(l, s, b).blocks == s.blocks && DatR(l, s, b) == Word(0, 0, 0, 0)
  {
  }
}
