/** The NasNet builder and its forward pass, on tensor shapes (engine/models/cifar/nasnet.py). */
module NasNet {
  import opened Words
  import opened Wrappers

  /** Channels, height and width; the batch size plays no part. */
  datatype Shape = Shape(c: nat, h: nat, w: nat)

  // ---------- layers ----------

  /** The size of one dimension after a sliding window. */
  function Window(n: nat, kernel: nat, stride: nat, pad: nat): Result<nat>
    requires kernel > 0 && stride > 0
  {
    if n + 2 * pad < kernel then Fail else Ok((n + 2 * pad - kernel) / stride + 1)
  }

  function Pool(x: Shape, kernel: nat, stride: nat, pad: nat): Result<Shape>
    requires kernel > 0 && stride > 0
  {
    var h :- Window(x.h, kernel, stride, pad);
    var w :- Window(x.w, kernel, stride, pad);
    Ok(Shape(x.c, h, w))
  }

  /** A convolution accepts only the channel count it was built for. */
  function Conv(x: Shape, input: nat, output: nat, kernel: nat, stride: nat, pad: nat): Result<Shape>
    requires kernel > 0 && stride > 0
  {
    if x.c != input then Fail
    else
      var y :- Pool(x, kernel, stride, pad);
      Ok(y.(c := output))
  }

  /** Depthwise then pointwise. */
  function SeparableConv(x: Shape, input: nat, output: nat, kernel: nat, stride: nat, pad: nat): Result<Shape>
    requires kernel > 0 && stride > 0
  {
    var y :- Conv(x, input, input, kernel, stride, pad);
    Conv(y, input, output, 1, 1, 0)
  }

  /** Two separable convolutions; the second keeps the size. */
  function Branch(x: Shape, input: nat, output: nat, kernel: nat, stride: nat, pad: nat): Result<Shape>
    requires kernel > 0 && stride > 0
  {
    var y :- SeparableConv(x, input, output, kernel, stride, pad);
    SeparableConv(y, output, output, kernel, 1, kernel / 2)
  }

  function BatchNorm(x: Shape, channels: nat): Result<Shape> {
    if x.c == channels then Ok(x) else Fail
  }

  /** One dimension of a broadcasting sum. */
  function Broadcast(m: nat, n: nat): Result<nat> {
    if m == n || n == 1 then Ok(m) else if m == 1 then Ok(n) else Fail
  }

  function Add(x: Shape, y: Shape): Result<Shape> {
    var c :- Broadcast(x.c, y.c);
    var h :- Broadcast(x.h, y.h);
    var w :- Broadcast(x.w, y.w);
    Ok(Shape(c, h, w))
  }

  function Sum(x: Result<Shape>, y: Result<Shape>): Result<Shape> {
    if x.Fail? || y.Fail? then Fail else Add(x.value, y.value)
  }

  /** Concatenation of channels; the sizes must agree. */
  function Cat(xs: seq<Result<Shape>>): Result<Shape>
    requires xs != []
  {
    var last := xs[|xs| - 1];
    if |xs| == 1 then last
    else
      var init := Cat(xs[..|xs| - 1]);
      if init.Fail? || last.Fail? || init.value.h != last.value.h || init.value.w != last.value.w then Fail
      else Ok(init.value.(c := init.value.c + last.value.c))
  }

  /** m is the number of window positions: the last one still ends inside the padded row, one more would not. */
  lemma WindowIff(n: nat, kernel: nat, stride: nat, pad: nat, m: nat)
    requires kernel > 0 && stride > 0
    ensures Window(n, kernel, stride, pad) == Ok(m)
      <==> m > 0 && (m - 1) * stride + kernel <= n + 2 * pad < m * stride + kernel
  {
    if kernel <= n + 2 * pad {
      var free := n + 2 * pad - kernel;
      if m > 0 && (m - 1) * stride <= free < m * stride {
        DivModUnique(free, stride, m - 1, free - (m - 1) * stride);
      }
    } else if m > 0 {
      MulMono(stride, 0, m - 1);
    }
  }

  /** A dimension of r comes from equal dimensions, or from repeating a dimension of one. */
  predicate Repeats(m: nat, n: nat, r: nat) {
    (m == r || m == 1) && (n == r || n == 1) && (r == m || r == n)
  }

  /** A sum takes two tensors whose dimensions are equal or one, and nothing else. */
  lemma SumIff(x: Result<Shape>, y: Result<Shape>, z: Shape)
    ensures Sum(x, y) == Ok(z) <==>
      && x.Ok? && y.Ok?
      && Repeats(x.value.c, y.value.c, z.c) && Repeats(x.value.h, y.value.h, z.h) && Repeats(x.value.w, y.value.w, z.w)
  {
  }

  // ---------- cells ----------

  datatype Cell = NormalCell(xIn: nat, prevIn: nat, output: nat) | ReductionCell(xIn: nat, prevIn: nat, output: nat)

  /** Makes the older tensor fit: halved when the heights differ, else reduced to the wanted channels. */
  function Fit(prevFilters: nat, filters: nat, x: Shape, prev: Option<Shape>): Result<Shape> {
    if prev.None? then Ok(x)
    else
      var p := prev.value;
      if x.h != p.h then
        // both halves see every second pixel; padding the far side and cropping the near side keeps the size
        var sampled :- Pool(p, 1, 2, 0);
        var half := Conv(sampled, prevFilters, filters / 2, 1, 1, 0);
        var both :- Cat([half, half]);
        BatchNorm(both, filters)
      else if p.c != filters then Conv(p, prevFilters, filters, 1, 1, 0)
      else Ok(p)
  }

  /** Halving the older tensor needs the channels the cell was built for and an even number of filters. */
  lemma FitHalvesIff(prevFilters: nat, filters: nat, x: Shape, p: Shape)
    requires x.h != p.h && p.h > 0 && p.w > 0
    ensures Fit(prevFilters, filters, x, Some(p)).Ok? <==> p.c == prevFilters && filters % 2 == 0
    ensures Fit(prevFilters, filters, x, Some(p)).Ok? ==>
      Fit(prevFilters, filters, x, Some(p)).value == Shape(filters, (p.h + 1) / 2, (p.w + 1) / 2)
  {
    var sampled := Shape(p.c, (p.h + 1) / 2, (p.w + 1) / 2);
    EverySecond(p);
    Pointwise(sampled, prevFilters, filters / 2);
    CatPair(Conv(sampled, prevFilters, filters / 2, 1, 1, 0));
    hide Pool, Conv, Cat;
  }

  lemma EverySecond(p: Shape)
    requires p.h > 0 && p.w > 0
    ensures Pool(p, 1, 2, 0) == Ok(Shape(p.c, (p.h + 1) / 2, (p.w + 1) / 2))
  {
  }

  lemma Pointwise(x: Shape, input: nat, output: nat)
    requires x.h > 0 && x.w > 0
    ensures Conv(x, input, output, 1, 1, 0) == if x.c == input then Ok(x.(c := output)) else Fail
  {
  }

  lemma CatPair(half: Result<Shape>)
    ensures Cat([half, half]) == if half.Ok? then Ok(half.value.(c := 2 * half.value.c)) else Fail
  {
    assert [half, half][..1] == [half];
  }

  function NormalForward(xIn: nat, prevIn: nat, f: nat, x: Shape, prev: Option<Shape>): Result<Shape> {
    var p :- Fit(prevIn, f, x, prev);
    var h :- Conv(x, xIn, f, 1, 1, 0);
    Cat([Ok(p),
         Sum(Branch(h, f, f, 3, 1, 1), Ok(h)),
         Sum(Branch(p, f, f, 3, 1, 1), Branch(h, f, f, 5, 1, 2)),
         Sum(Pool(h, 3, 1, 1), Ok(h)),
         Sum(Pool(p, 3, 1, 1), Pool(p, 3, 1, 1)),
         Sum(Branch(p, f, f, 5, 1, 2), Branch(p, f, f, 3, 1, 1))])
  }

  function ReductionForward(xIn: nat, prevIn: nat, f: nat, x: Shape, prev: Option<Shape>): Result<Shape> {
    var p :- Fit(prevIn, f, x, prev);
    var h :- Conv(x, xIn, f, 1, 1, 0);
    var l1b1 :- Sum(Branch(p, f, f, 7, 2, 3), Branch(h, f, f, 5, 2, 2));
    var l1b2 := Sum(Pool(h, 3, 2, 1), Branch(p, f, f, 7, 2, 3));
    var l1b3 := Sum(Pool(h, 3, 2, 1), Branch(p, f, f, 5, 2, 2));
    var l2b1 := Sum(Pool(h, 3, 2, 1), Branch(l1b1, f, f, 3, 1, 1));
    var l2b2 := Sum(Pool(l1b1, 3, 1, 1), l1b2);
    Cat([l1b2, l1b3, l2b1, l2b2])
  }

  function CellForward(cell: Cell, x: Shape, prev: Option<Shape>): Result<Shape> {
    match cell
    case NormalCell(xIn, prevIn, f) => NormalForward(xIn, prevIn, f, x, prev)
    case ReductionCell(xIn, prevIn, f) => ReductionForward(xIn, prevIn, f, x, prev)
  }

  /** The tensors between cells: a cell's output becomes x and its input becomes prev. */
  datatype Flow = Flow(x: Shape, prev: Option<Shape>)

  function CellsForward(cells: seq<Cell>, flow: Flow): Result<Flow> {
    if cells == [] then Ok(flow)
    else
      var before :- CellsForward(cells[..|cells| - 1], flow);
      var y :- CellForward(cells[|cells| - 1], before.x, before.prev);
      Ok(Flow(y, Some(before.x)))
  }

  // ---------- the builder ----------

  datatype Counts = Counts(x: nat, prev: nat)

  function AfterNormal(k: Counts, output: nat): Counts { Counts(output * 6, k.x) }

  function AfterReduction(k: Counts, output: nat): Counts { Counts(output * 4, k.x) }

  function NormalCells(k: Counts, repeat: nat, output: nat): (r: (seq<Cell>, Counts)) {
    if repeat == 0 then ([], k)
    else
      var (cells, before) := NormalCells(k, repeat - 1, output);
      (cells + [NormalCell(before.x, before.prev, output)], AfterNormal(before, output))
  }

  /** The cells of the stages before the last block, the channel counts after them, and the filters they end with. */
  function Stages(k: Counts, repeat: nat, reductions: nat, filters: nat): (r: (seq<Cell>, Counts, nat)) {
    if reductions == 0 then ([], k, filters)
    else
      var (cells, k1, f) := Stages(k, repeat, reductions - 1, filters);
      var (normal, k2) := NormalCells(k1, repeat, f);
      (cells + normal + [ReductionCell(k2.x, k2.prev, f * 2)], AfterReduction(k2, f * 2), f * 2)
  }

  /** The network as built: its cells and the input channels of the final linear layer. */
  datatype Network = Network(stem: nat, cells: seq<Cell>, linearIn: nat)

  function Build(repeat: nat, reductions: nat, filters: nat, stem: nat): Network {
    var (cells, k, f) := Stages(Counts(stem, stem), repeat, reductions, filters);
    var (normal, _) := NormalCells(k, repeat, f);
    Network(stem, cells + normal, f * 6)
  }

  class NasNetA {
    const stem: nat
    var prevFilters: nat
    var xFilters: nat
    var filters: nat
    var cellLayers: seq<Cell>
    var linearIn: nat

    constructor (repeatCellNum: nat, reductionNum: nat, filters: nat, stemFilter: nat)
      ensures Network(stem, cellLayers, linearIn) == Build(repeatCellNum, reductionNum, filters, stemFilter)
    {
      stem := stemFilter;
      prevFilters, xFilters := stemFilter, stemFilter;
      this.filters := filters;
      cellLayers, linearIn := [], 0;
      new;
      cellLayers := MakeLayers(repeatCellNum, reductionNum);
      linearIn := this.filters * 6;
    }

    method MakeNormal(repeat: nat, output: nat) returns (layers: seq<Cell>)
      modifies `prevFilters, `xFilters
      ensures (layers, Counts(xFilters, prevFilters)) == NormalCells(old(Counts(xFilters, prevFilters)), repeat, output)
    {
      layers := [];
      for r := 0 to repeat
        invariant (layers, Counts(xFilters, prevFilters)) == NormalCells(old(Counts(xFilters, prevFilters)), r, output)
      {
        layers := layers + [NormalCell(xFilters, prevFilters, output)];
        prevFilters := xFilters;
        xFilters := output * 6;
      }
    }

    method MakeReduction(output: nat) returns (reduction: Cell)
      modifies `prevFilters, `xFilters
      ensures reduction == ReductionCell(old(xFilters), old(prevFilters), output)
      ensures Counts(xFilters, prevFilters) == AfterReduction(old(Counts(xFilters, prevFilters)), output)
    {
      reduction := ReductionCell(xFilters, prevFilters, output);
      prevFilters := xFilters;
      xFilters := output * 4;
    }

    method MakeLayers(repeatCellNum: nat, reductionNum: nat) returns (layers: seq<Cell>)
      modifies `prevFilters, `xFilters, `filters
      ensures
        var (cells, k, f) := Stages(old(Counts(xFilters, prevFilters)), repeatCellNum, reductionNum, old(filters));
        filters == f && layers == cells + NormalCells(k, repeatCellNum, f).0
    {
      layers := [];
      for i := 0 to reductionNum
        invariant (layers, Counts(xFilters, prevFilters), filters)
               == Stages(old(Counts(xFilters, prevFilters)), repeatCellNum, i, old(filters))
      {
        var normal := MakeNormal(repeatCellNum, filters);
        filters := filters * 2;
        var reduction := MakeReduction(filters);
        layers := layers + normal + [reduction];
      }
      var normal := MakeNormal(repeatCellNum, filters);
      layers := layers + normal;
    }
  }

  /** The whole forward pass on an image of h by w pixels: stem, cells, global pooling, linear layer. */
  function Forward(n: Network, h: nat, w: nat): Result<nat> {
    var x :- Conv(Shape(3, h, w), 3, n.stem, 3, 1, 1);
    var flow :- CellsForward(n.cells, Flow(x, None));
    if flow.x.c == n.linearIn then Ok(flow.x.c) else Fail
  }

  // ---------- sizes ----------

  /** Half of a dimension, rounded up. */
  function Half(n: nat): nat { (n + 1) / 2 }

  lemma WindowSizes(n: nat)
    requires n >= 1
    ensures Window(n, 1, 1, 0) == Window(n, 3, 1, 1) == Window(n, 5, 1, 2) == Ok(n)
    ensures Window(n, 1, 2, 0) == Window(n, 3, 2, 1) == Window(n, 5, 2, 2) == Window(n, 7, 2, 3) == Ok(Half(n))
    ensures Window(n, 7, 1, 3) == Ok(n)
  {
  }

  function Halved(x: Shape): Shape { Shape(x.c, Half(x.h), Half(x.w)) }

  predicate Visible(x: Shape) { x.h >= 1 && x.w >= 1 }

  lemma ConvKeepsSize(x: Shape, output: nat)
    requires Visible(x)
    ensures Conv(x, x.c, output, 1, 1, 0) == Conv(x, x.c, output, 3, 1, 1) == Ok(x.(c := output))
  {
  }

  lemma BranchKeepsSize(x: Shape)
    requires Visible(x)
    ensures Branch(x, x.c, x.c, 3, 1, 1) == Branch(x, x.c, x.c, 5, 1, 2) == Ok(x)
    ensures Pool(x, 3, 1, 1) == Ok(x)
  {
  }

  lemma {:induction false} BranchHalves(x: Shape)
    requires Visible(x)
    ensures Branch(x, x.c, x.c, 7, 2, 3) == Branch(x, x.c, x.c, 5, 2, 2) == Ok(Halved(x))
    ensures Pool(x, 3, 2, 1) == Pool(x, 1, 2, 0) == Ok(Halved(x))
  {
    WindowSizes(x.h);
    WindowSizes(x.w);
    WindowSizes(Half(x.h));
    WindowSizes(Half(x.w));
    hide Window, Half;
  }

  lemma {:induction false} CatSame(x: Shape, xs: seq<Result<Shape>>)
    requires xs != [] && forall i :: 0 <= i < |xs| ==> xs[i] == Ok(x)
    ensures Cat(xs) == Ok(x.(c := x.c * |xs|))
  {
    if |xs| > 1 {
      CatSame(x, xs[..|xs| - 1]);
      assert x.c * |xs| == x.c * (|xs| - 1) + x.c;
    }
  }

  /** Concatenation succeeds only for equal sizes. */
  lemma {:induction false} CatSizes(xs: seq<Result<Shape>>, i: nat)
    requires i < |xs| && Cat(xs).Ok?
    ensures xs[i].Ok? && xs[i].value.h == Cat(xs).value.h && xs[i].value.w == Cat(xs).value.w
  {
    if i < |xs| - 1 {
      CatSizes(xs[..|xs| - 1], i);
    }
  }

  // ---------- one cell ----------

  /** What a cell needs of the older tensor: none yet and x already as wide as a branch, or the channel count the cell
      was built for, and either the same size as x or, before a reduction, twice its size. */
  predicate Fits(x: Shape, prev: Option<Shape>, prevIn: nat, f: nat) {
    match prev
    case None => x.c == f
    case Some(p) =>
      && p.c == prevIn && Visible(p)
      && ((p.h == x.h && p.w == x.w) || (p.h > 1 && x.h == Half(p.h) && x.w == Half(p.w) && f % 2 == 0))
  }

  lemma FitGivesBranchShape(x: Shape, prev: Option<Shape>, prevIn: nat, f: nat)
    requires Visible(x) && Fits(x, prev, prevIn, f)
    ensures Fit(prevIn, f, x, prev) == Ok(x.(c := f))
  {
    if prev.Some? {
      var p := prev.value;
      if x.h != p.h {
        BranchHalves(p);
        ConvKeepsSize(Halved(p), f / 2);
        var half := x.(c := f / 2);
        CatSame(half, [Ok(half), Ok(half)]);
        hide Pool, Conv, Cat;
      } else {
        ConvKeepsSize(p, f);
        hide Conv;
      }
    }
  }

  /** A normal cell that gets what it was built for gives six branches of the same size. */
  lemma NormalCellRuns(x: Shape, prev: Option<Shape>, prevIn: nat, f: nat)
    requires Visible(x) && Fits(x, prev, prevIn, f)
    ensures NormalForward(x.c, prevIn, f, x, prev) == Ok(Shape(f * 6, x.h, x.w))
  {
    var h := x.(c := f);
    FitGivesBranchShape(x, prev, prevIn, f);
    ConvKeepsSize(x, f);
    BranchKeepsSize(h);
    var xs := [Ok(h), Ok(h), Ok(h), Ok(h), Ok(h), Ok(h)];
    CatSame(h, xs);
    hide Fit, Conv, Branch, Pool, Cat, Fits;
  }

  /** A reduction cell gives four branches of half the size. */
  lemma ReductionCellRuns(x: Shape, prev: Option<Shape>, prevIn: nat, f: nat)
    requires Visible(x) && Fits(x, prev, prevIn, f)
    ensures ReductionForward(x.c, prevIn, f, x, prev) == Ok(Shape(f * 4, Half(x.h), Half(x.w)))
  {
    var h := x.(c := f);
    FitGivesBranchShape(x, prev, prevIn, f);
    ConvKeepsSize(x, f);
    BranchHalves(h);
    BranchKeepsSize(Halved(h));
    CatSame(Halved(h), [Ok(Halved(h)), Ok(Halved(h)), Ok(Halved(h)), Ok(Halved(h))]);
    hide Fit, Conv, Branch, Pool, Cat, Fits, Half;
  }

  // ---------- runs of cells ----------

  lemma {:induction false} CellsAppend(a: seq<Cell>, b: seq<Cell>, flow: Flow)
    ensures CellsForward(a + b, flow) ==
      if CellsForward(a, flow).Fail? then Fail else CellsForward(b, CellsForward(a, flow).value)
  {
    hide CellForward;
    if b == [] {
      assert a + b == a;
    } else {
      assert (a + b)[..|a + b| - 1] == a + b[..|b| - 1];
      CellsAppend(a, b[..|b| - 1], flow);
    }
  }

  /** The tensors are those the next cells of width f will be built for. */
  predicate InStep(flow: Flow, k: Counts, f: nat) {
    flow.x.c == k.x && Visible(flow.x) && Fits(flow.x, flow.prev, k.prev, f)
  }

  /** A block of normal cells runs, keeps the size, and ends with six branches beside a tensor of the same size. */
  lemma {:induction false} NormalCellsRun(k: Counts, repeat: nat, f: nat, flow: Flow)
    requires InStep(flow, k, f)
    ensures var (cells, k') := NormalCells(k, repeat, f);
      var r := CellsForward(cells, flow);
      && r.Ok? && InStep(r.value, k', f)
      && r.value.x.h == flow.x.h && r.value.x.w == flow.x.w
      && (repeat >= 1 ==>
           && r.value.x.c == f * 6 && r.value.prev.Some?
           && r.value.prev.value.h == flow.x.h && r.value.prev.value.w == flow.x.w)
  {
    hide Fit, NormalForward, ReductionForward;
    if repeat > 0 {
      NormalCellsRun(k, repeat - 1, f, flow);
      var (cells, before) := NormalCells(k, repeat - 1, f);
      var mid := CellsForward(cells, flow).value;
      NormalCellRuns(mid.x, mid.prev, before.prev, f);
      assert (cells + [NormalCell(before.x, before.prev, f)])[..|cells|] == cells;
    }
  }

  /** A dimension after n reductions. */
  function HalfTimes(n: nat, times: nat): nat {
    if times == 0 then n else Half(HalfTimes(n, times - 1))
  }

  /** An image whose height reaches one pixel before a reduction must be one pixel wide by then: the cells compare
      heights only. Square images always are. */
  predicate Compatible(h: nat, w: nat, reductions: nat) {
    forall i :: 0 <= i < reductions ==> (HalfTimes(h, i) == 1 ==> HalfTimes(w, i) == 1)
  }

  lemma OneCell(cell: Cell, flow: Flow)
    ensures CellsForward([cell], flow) ==
      if CellForward(cell, flow.x, flow.prev).Fail? then Fail
      else Ok(Flow(CellForward(cell, flow.x, flow.prev).value, Some(flow.x)))
  {
  }

  /** The tensors after a reduction are those the next stage is built for. */
  lemma ReductionLeavesInStep(k: Counts, f: nat, flow: Flow)
    requires InStep(flow, k, f) && flow.prev.Some? && (flow.x.h == 1 ==> flow.x.w == 1)
    requires flow.prev.value.h == flow.x.h && flow.prev.value.w == flow.x.w
    ensures Fits(flow.x, flow.prev, k.prev, f * 2)
    ensures InStep(Flow(Shape(f * 2 * 4, Half(flow.x.h), Half(flow.x.w)), Some(flow.x)),
                   AfterReduction(k, f * 2), f * 2)
  {
  }

  /** A reduction after normal cells runs, on an image of any proportions. */
  lemma ReductionRuns(k: Counts, f: nat, flow: Flow)
    requires InStep(flow, k, f) && flow.prev.Some?
    requires flow.prev.value.h == flow.x.h && flow.prev.value.w == flow.x.w
    ensures CellsForward([ReductionCell(k.x, k.prev, f * 2)], flow)
         == Ok(Flow(Shape(f * 2 * 4, Half(flow.x.h), Half(flow.x.w)), Some(flow.x)))
  {
    assert Fits(flow.x, flow.prev, k.prev, f * 2);
    assert Visible(flow.x) && flow.x.c == k.x;
    hide ReductionForward, NormalForward, Half, Fits, InStep, CellsForward;
    OneCell(ReductionCell(k.x, k.prev, f * 2), flow);
    ReductionCellRuns(flow.x, flow.prev, k.prev, f * 2);
  }

  /** One stage: a block of normal cells and a reduction. It leaves a tensor of half the size beside one of the size
      it got. */
  lemma StageRuns(k: Counts, repeat: nat, f: nat, flow: Flow)
    requires InStep(flow, k, f) && repeat >= 1
    ensures var (normal, k2) := NormalCells(k, repeat, f);
      var r := CellsForward(normal + [ReductionCell(k2.x, k2.prev, f * 2)], flow);
      && r.Ok? && r.value.prev.Some?
      && r.value.x == Shape(f * 2 * 4, Half(flow.x.h), Half(flow.x.w))
      && r.value.prev.value.h == flow.x.h && r.value.prev.value.w == flow.x.w
      && ((flow.x.h == 1 ==> flow.x.w == 1) ==> InStep(r.value, AfterReduction(k2, f * 2), f * 2))
  {
    hide CellsForward, InStep, Half, NormalCells, AfterReduction;
    var (normal, k2) := NormalCells(k, repeat, f);
    NormalCellsRun(k, repeat, f, flow);
    var mid := CellsForward(normal, flow).value;
    ReductionRuns(k2, f, mid);
    if mid.x.h == 1 ==> mid.x.w == 1 {
      ReductionLeavesInStep(k2, f, mid);
    }
    CellsAppend(normal, [ReductionCell(k2.x, k2.prev, f * 2)], flow);
  }

  /** One more stage after cells that have run. */
  lemma NextStageRuns(cells: seq<Cell>, start: Flow, k: Counts, repeat: nat, f: nat)
    requires repeat >= 1 && CellsForward(cells, start).Ok?
    requires var before := CellsForward(cells, start).value;
      InStep(before, k, f) && (before.x.h == 1 ==> before.x.w == 1)
    ensures var (normal, k2) := NormalCells(k, repeat, f);
      var before := CellsForward(cells, start).value;
      var r := CellsForward(cells + normal + [ReductionCell(k2.x, k2.prev, f * 2)], start);
      && r.Ok? && InStep(r.value, AfterReduction(k2, f * 2), f * 2)
      && r.value.x.h == Half(before.x.h) && r.value.x.w == Half(before.x.w)
  {
    hide CellsForward, InStep, Half, NormalCells, AfterReduction;
    var (normal, k2) := NormalCells(k, repeat, f);
    var stage := normal + [ReductionCell(k2.x, k2.prev, f * 2)];
    StageRuns(k, repeat, f, CellsForward(cells, start).value);
    CellsAppend(cells, stage, start);
    assert cells + normal + [ReductionCell(k2.x, k2.prev, f * 2)] == cells + stage;
  }

  lemma {:induction false} StagesRun(repeat: nat, reductions: nat, filters: nat, h: nat, w: nat)
    requires repeat >= 1 && h >= 1 && w >= 1 && Compatible(h, w, reductions)
    ensures var (cells, k, f) := Stages(Counts(filters, filters), repeat, reductions, filters);
      var r := CellsForward(cells, Flow(Shape(filters, h, w), None));
      && r.Ok? && InStep(r.value, k, f)
      && r.value.x.h == HalfTimes(h, reductions) && r.value.x.w == HalfTimes(w, reductions)
  {
    hide CellForward, Half, NormalCells;
    if reductions > 0 {
      StagesRun(repeat, reductions - 1, filters, h, w);
      var (cells, k, f) := Stages(Counts(filters, filters), repeat, reductions - 1, filters);
      NextStageRuns(cells, Flow(Shape(filters, h, w), None), k, repeat, f);
      hide CellsForward, InStep;
    }
  }

  // ---------- when the network fails ----------

  /** A normal cell fails when it gets no older tensor and x is not as wide as a branch, or an older tensor as high as x
      but not as wide. */
  lemma NormalCellFails(xIn: nat, prevIn: nat, f: nat, x: Shape, prev: Option<Shape>)
    requires Visible(x)
    requires match prev { case None => x.c != f case Some(p) => Visible(p) && p.h == x.h && p.w != x.w }
    ensures NormalForward(xIn, prevIn, f, x, prev).Fail?
  {
    if NormalForward(xIn, prevIn, f, x, prev).Ok? {
      if prev.None? {
        NarrowBranchFails(x, f);
      } else {
        FitKeepsSize(prevIn, f, x, prev.value);
      }
      var p := Fit(prevIn, f, x, prev).value;
      var h := Conv(x, xIn, f, 1, 1, 0).value;
      ConvKeepsSize(x, f);
      BranchKeepsSize(h);
      var first := Sum(Branch(h, f, f, 3, 1, 1), Ok(h));
      var second := Sum(Branch(p, f, f, 3, 1, 1), Branch(h, f, f, 5, 1, 2));
      hide Fit, Conv, Branch, Pool;
      SixAgree(Ok(p), first, second, Sum(Pool(h, 3, 1, 1), Ok(h)), Sum(Pool(p, 3, 1, 1), Pool(p, 3, 1, 1)),
               Sum(Branch(p, f, f, 5, 1, 2), Branch(p, f, f, 3, 1, 1)));
    }
  }

  lemma NarrowBranchFails(x: Shape, f: nat)
    requires x.c != f
    ensures Branch(x, f, f, 3, 1, 1).Fail?
  {
  }

  lemma FitKeepsSize(prevIn: nat, f: nat, x: Shape, p: Shape)
    requires Visible(p) && p.h == x.h && Fit(prevIn, f, x, Some(p)).Ok?
    ensures Fit(prevIn, f, x, Some(p)).value.w == p.w
  {
  }

  lemma SixAgree(a: Result<Shape>, b: Result<Shape>, c: Result<Shape>, d: Result<Shape>, e: Result<Shape>,
                 g: Result<Shape>)
    requires Cat([a, b, c, d, e, g]).Ok?
    ensures a.Ok? && b.Ok? && c.Ok? && a.value.w == b.value.w
  {
    var xs := [a, b, c, d, e, g];
    hide Cat;
    CatSizes(xs, 0);
    CatSizes(xs, 1);
    CatSizes(xs, 2);
  }

  lemma {:induction false} NormalBlockFails(k: Counts, repeat: nat, f: nat, flow: Flow)
    requires repeat >= 1 && NormalForward(k.x, k.prev, f, flow.x, flow.prev).Fail?
    ensures CellsForward(NormalCells(k, repeat, f).0, flow).Fail?
  {
    hide NormalForward, ReductionForward;
    var (cells, before) := NormalCells(k, repeat - 1, f);
    assert (cells + [NormalCell(before.x, before.prev, f)])[..|cells|] == cells;
    if repeat > 1 {
      NormalBlockFails(k, repeat - 1, f, flow);
    } else {
      assert CellsForward([], flow) == Ok(flow);
    }
  }

  /** The cells of a network with more reductions start with those of one with fewer, so they fail where it fails. */
  lemma {:induction false} FailurePersists(repeat: nat, fewer: nat, more: nat, filters: nat, stem: nat, flow: Flow)
    requires fewer <= more && CellsForward(Build(repeat, fewer, filters, stem).cells, flow).Fail?
    ensures CellsForward(Build(repeat, more, filters, stem).cells, flow).Fail?
    decreases more - fewer
  {
    if fewer < more {
      var (cells, k, f) := Stages(Counts(stem, stem), repeat, fewer, filters);
      var (normal, k2) := NormalCells(k, repeat, f);
      var reduction := [ReductionCell(k2.x, k2.prev, f * 2)];
      var after := NormalCells(AfterReduction(k2, f * 2), repeat, f * 2).0;
      hide CellsForward, NormalCells, AfterReduction;
      CellsAppend(cells + normal, reduction, flow);
      CellsAppend(cells + normal + reduction, after, flow);
      FailurePersists(repeat, fewer + 1, more, filters, stem, flow);
    }
  }

  /** The first reduction that starts from a height of one pixel and a greater width stops the cell after it. */
  lemma FlatImageFails(repeat: nat, i: nat, filters: nat, h: nat, w: nat)
    requires repeat >= 1 && h >= 1 && w >= 1 && Compatible(h, w, i)
    requires HalfTimes(h, i) == 1 && HalfTimes(w, i) > 1
    ensures CellsForward(Build(repeat, i + 1, filters, filters).cells, Flow(Shape(filters, h, w), None)).Fail?
  {
    StagesRun(repeat, i, filters, h, w);
    var start := Flow(Shape(filters, h, w), None);
    var (cells, k, f) := Stages(Counts(filters, filters), repeat, i, filters);
    var (normal, k2) := NormalCells(k, repeat, f);
    var stage := normal + [ReductionCell(k2.x, k2.prev, f * 2)];
    var before := CellsForward(cells, start).value;
    StageRuns(k, repeat, f, before);
    var after := CellsForward(stage, before).value;
    var k3 := AfterReduction(k2, f * 2);
    NormalCellFails(k3.x, k3.prev, f * 2, after.x, after.prev);
    assert cells + normal + [ReductionCell(k2.x, k2.prev, f * 2)] == cells + stage;
    hide CellsForward, NormalCells, NormalForward, AfterReduction, InStep, HalfTimes, Half;
    NormalBlockFails(k3, repeat, f * 2, after);
    CellsAppend(cells, stage, start);
    CellsAppend(cells + stage, NormalCells(k3, repeat, f * 2).0, start);
  }

  lemma FirstFlat(h: nat, w: nat, reductions: nat) returns (i: nat)
    requires h >= 1 && w >= 1 && !Compatible(h, w, reductions)
    ensures i < reductions && Compatible(h, w, i) && HalfTimes(h, i) == 1 && HalfTimes(w, i) > 1
  {
    if Compatible(h, w, reductions - 1) {
      i := reductions - 1;
      HalfTimesPositive(w, i);
    } else {
      i := FirstFlat(h, w, reductions - 1);
    }
  }

  lemma HalfTimesPositive(n: nat, times: nat)
    requires n >= 1
    ensures HalfTimes(n, times) >= 1
  {
  }

  lemma WideStemFails(repeat: nat, filters: nat, stem: nat, h: nat, w: nat)
    requires repeat >= 1 && h >= 1 && w >= 1 && stem != filters
    ensures CellsForward(Build(repeat, 0, filters, stem).cells, Flow(Shape(stem, h, w), None)).Fail?
  {
    var k := Counts(stem, stem);
    var flow := Flow(Shape(stem, h, w), None);
    NormalCellFails(stem, stem, filters, flow.x, flow.prev);
    hide CellsForward, NormalCells, NormalForward;
    NormalBlockFails(k, repeat, filters, flow);
    var normal := NormalCells(k, repeat, filters).0;
    assert [] + normal == normal;
  }

  // ---------- the network ----------

  /** The network runs on a compatible image when the stem is as wide as the filters; the linear layer then gets the
      channels it was built for. */
  lemma NetworkRuns(repeat: nat, reductions: nat, filters: nat, h: nat, w: nat)
    requires repeat >= 1 && h >= 1 && w >= 1 && Compatible(h, w, reductions)
    ensures Forward(Build(repeat, reductions, filters, filters), h, w).Ok?
  {
    StagesRun(repeat, reductions, filters, h, w);
    var (cells, k, f) := Stages(Counts(filters, filters), repeat, reductions, filters);
    var start := Flow(Shape(filters, h, w), None);
    var (normal, k') := NormalCells(k, repeat, f);
    NormalCellsRun(k, repeat, f, CellsForward(cells, start).value);
    CellsAppend(cells, normal, start);
    WindowSizes(h);
    WindowSizes(w);
    hide CellsForward, Window, NormalCells, Stages;
  }

  lemma StemGives(n: Network, h: nat, w: nat)
    requires h >= 1 && w >= 1
    ensures Forward(n, h, w).Ok? ==> CellsForward(n.cells, Flow(Shape(n.stem, h, w), None)).Ok?
  {
    WindowSizes(h);
    WindowSizes(w);
    hide CellsForward, Window;
  }

  // ---------- networks without normal cells ----------

  /** If it is a tensor at all, it has c channels. */
  predicate Wide(r: Result<Shape>, c: nat) {
    r.Ok? ==> r.value.c == c
  }

  lemma SumWide(x: Result<Shape>, y: Result<Shape>, c: nat)
    requires Wide(x, c) && Wide(y, c)
    ensures Wide(Sum(x, y), c)
  {
  }

  lemma BranchWide(x: Shape, f: nat, kernel: nat, stride: nat, pad: nat)
    requires kernel > 0 && stride > 0
    ensures Wide(Branch(x, f, f, kernel, stride, pad), f)
  {
  }

  lemma PoolWide(x: Shape, kernel: nat, stride: nat, pad: nat)
    requires kernel > 0 && stride > 0
    ensures Wide(Pool(x, kernel, stride, pad), x.c)
  {
  }

  lemma {:induction false} CatWide(xs: seq<Result<Shape>>, c: nat)
    requires xs != [] && forall i :: 0 <= i < |xs| ==> Wide(xs[i], c)
    ensures Wide(Cat(xs), |xs| * c)
  {
    if |xs| > 1 {
      CatWide(xs[..|xs| - 1], c);
      assert |xs| * c == (|xs| - 1) * c + c;
    }
  }

  /** The four branches of a reduction cell are as wide as its inner tensors. */
  lemma BlocksWide(p: Shape, h: Shape, l1b1: Shape, f: nat)
    requires h.c == f && l1b1.c == f
    ensures
      var l1b2 := Sum(Pool(h, 3, 2, 1), Branch(p, f, f, 7, 2, 3));
      var l1b3 := Sum(Pool(h, 3, 2, 1), Branch(p, f, f, 5, 2, 2));
      Wide(Cat([l1b2, l1b3, Sum(Pool(h, 3, 2, 1), Branch(l1b1, f, f, 3, 1, 1)), Sum(Pool(l1b1, 3, 1, 1), l1b2)]), 4 * f)
  {
    hide Branch, Pool, Cat, Sum, Wide;
    BranchWide(p, f, 7, 2, 3);
    BranchWide(p, f, 5, 2, 2);
    BranchWide(l1b1, f, 3, 1, 1);
    PoolWide(h, 3, 2, 1);
    PoolWide(l1b1, 3, 1, 1);
    var l1b2, l1b3 := Sum(Pool(h, 3, 2, 1), Branch(p, f, f, 7, 2, 3)), Sum(Pool(h, 3, 2, 1), Branch(p, f, f, 5, 2, 2));
    SumWide(Pool(h, 3, 2, 1), Branch(p, f, f, 7, 2, 3), f);
    SumWide(Pool(h, 3, 2, 1), Branch(p, f, f, 5, 2, 2), f);
    SumWide(Pool(h, 3, 2, 1), Branch(l1b1, f, f, 3, 1, 1), f);
    SumWide(Pool(l1b1, 3, 1, 1), l1b2, f);
    CatWide([l1b2, l1b3, Sum(Pool(h, 3, 2, 1), Branch(l1b1, f, f, 3, 1, 1)), Sum(Pool(l1b1, 3, 1, 1), l1b2)], f);
  }

  /** Whatever a reduction cell accepts, it gives four branches. */
  lemma ReductionWide(xIn: nat, prevIn: nat, f: nat, x: Shape, prev: Option<Shape>)
    ensures Wide(ReductionForward(xIn, prevIn, f, x, prev), 4 * f)
  {
    hide Fit, Conv, Branch, Pool, Cat, Sum;
    if ReductionForward(xIn, prevIn, f, x, prev).Ok? {
      var p, h := Fit(prevIn, f, x, prev).value, Conv(x, xIn, f, 1, 1, 0).value;
      ConvWide(x, xIn, f);
      BranchWide(p, f, 7, 2, 3);
      BranchWide(h, f, 5, 2, 2);
      SumWide(Branch(p, f, f, 7, 2, 3), Branch(h, f, f, 5, 2, 2), f);
      BlocksWide(p, h, Sum(Branch(p, f, f, 7, 2, 3), Branch(h, f, f, 5, 2, 2)).value, f);
    }
  }

  lemma ConvWide(x: Shape, input: nat, f: nat)
    ensures Wide(Conv(x, input, f, 1, 1, 0), f)
  {
  }

  lemma {:induction false} StagesWiden(k: Counts, repeat: nat, reductions: nat, filters: nat)
    ensures Stages(k, repeat, reductions, filters).2 >= filters
  {
    if reductions > 0 {
      StagesWiden(k, repeat, reductions - 1, filters);
    }
  }

  /** Without normal cells the linear layer gets the stem's channels, or four branches where it wants six. */
  lemma BareRunsIff(reductions: nat, filters: nat, stem: nat, h: nat, w: nat)
    requires filters >= 1 && h >= 1 && w >= 1
    ensures Forward(Build(0, reductions, filters, stem), h, w).Ok? <==> reductions == 0 && stem == filters * 6
  {
    var n, start := Build(0, reductions, filters, stem), Flow(Shape(stem, h, w), None);
    StemShape(n, h, w);
    hide ReductionForward, NormalForward, Conv;
    if reductions == 0 {
      assert n.cells == [];
      assert CellsForward(n.cells, start) == Ok(start);
    } else {
      BareCells(reductions, filters, stem, start);
    }
  }

  /** The forward pass once the stem has run. */
  lemma StemShape(n: Network, h: nat, w: nat)
    requires h >= 1 && w >= 1
    ensures var r := CellsForward(n.cells, Flow(Shape(n.stem, h, w), None));
      Forward(n, h, w).Ok? <==> r.Ok? && r.value.x.c == n.linearIn
  {
    WindowSizes(h);
    WindowSizes(w);
    hide CellsForward, Window;
  }

  lemma BareCells(reductions: nat, filters: nat, stem: nat, start: Flow)
    requires reductions >= 1 && filters >= 1
    ensures var n := Build(0, reductions, filters, stem);
      var r := CellsForward(n.cells, start);
      r.Ok? ==> r.value.x.c != n.linearIn
  {
    hide ReductionForward, NormalForward;
    var n := Build(0, reductions, filters, stem);
    var (before, k, f) := Stages(Counts(stem, stem), 0, reductions - 1, filters);
    StagesWiden(Counts(stem, stem), 0, reductions - 1, filters);
    var cell := ReductionCell(k.x, k.prev, f * 2);
    assert n.cells == before + [cell];
    assert n.linearIn == f * 2 * 6;
    CellsAppend(before, [cell], start);
    if CellsForward(before, start).Ok? {
      var mid := CellsForward(before, start).value;
      OneCell(cell, mid);
      ReductionWide(k.x, k.prev, f * 2, mid.x, mid.prev);
    }
  }

  // ---------- exactly which networks run ----------

  /** With at least one normal cell a block, exactly the networks whose stem is as wide as the filters run, and those
      exactly on compatible images. Without normal cells, only a network that goes straight from a stem of the right
      width to the linear layer does. */
  lemma RunsIff(repeat: nat, reductions: nat, filters: nat, stem: nat, h: nat, w: nat)
    requires filters >= 1 && h >= 1 && w >= 1
    ensures Forward(Build(repeat, reductions, filters, stem), h, w).Ok? <==>
            if repeat == 0 then reductions == 0 && stem == filters * 6
            else stem == filters && Compatible(h, w, reductions)
  {
    hide Forward, CellsForward, Build, HalfTimes;
    var start := Flow(Shape(stem, h, w), None);
    StemGives(Build(repeat, reductions, filters, stem), h, w);
    BuildStem(repeat, reductions, filters, stem);
    if repeat == 0 {
      BareRunsIff(reductions, filters, stem, h, w);
    } else if stem != filters {
      WideStemFails(repeat, filters, stem, h, w);
      FailurePersists(repeat, 0, reductions, filters, stem, start);
    } else if Compatible(h, w, reductions) {
      NetworkRuns(repeat, reductions, filters, h, w);
    } else {
      var i := FirstFlat(h, w, reductions);
      FlatImageFails(repeat, i, filters, h, w);
      FailurePersists(repeat, i + 1, reductions, filters, stem, start);
    }
  }

  lemma BuildStem(repeat: nat, reductions: nat, filters: nat, stem: nat)
    ensures Build(repeat, reductions, filters, stem).stem == stem
  {
  }

  /** Images at least as high as they are wide are compatible with any number of reductions; square ones among them. */
  lemma {:induction false} TallIsCompatible(h: nat, w: nat, reductions: nat)
    requires h >= w >= 1
    ensures Compatible(h, w, reductions)
  {
    forall i | 0 <= i < reductions
      ensures HalfTimes(h, i) >= HalfTimes(w, i) >= 1
    {
      HalfTimesMonotone(h, w, i);
    }
  }

  lemma {:induction false} HalfTimesMonotone(h: nat, w: nat, times: nat)
    requires h >= w >= 1
    ensures HalfTimes(h, times) >= HalfTimes(w, times) >= 1
  {
    if times > 0 {
      HalfTimesMonotone(h, w, times - 1);
    }
  }

  // ---------- the network that is built ----------

  function TwoTo(n: nat): nat { if n == 0 then 1 else 2 * TwoTo(n - 1) }

  /** The channel counts after a list of cells: the last cell's output channels, and its input channels. */
  function CountsAfter(k: Counts, cells: seq<Cell>): Counts {
    if cells == [] then k
    else
      var last := cells[|cells| - 1];
      Counts(if last.NormalCell? then last.output * 6 else last.output * 4, last.xIn)
  }

  /** Cell i of a network that starts with counts k: every (repeat + 1)-th cell is a reduction, each reduction doubles
      the filters, and a cell's inputs are what the two cells before it put out. */
  predicate CellIs(k: Counts, repeat: nat, filters: nat, cells: seq<Cell>, i: nat)
    requires i < |cells|
  {
    var before := CountsAfter(k, cells[..i]);
    && cells[i].xIn == before.x && cells[i].prevIn == before.prev
    && (cells[i].ReductionCell? <==> (i + 1) % (repeat + 1) == 0)
    && cells[i].output == filters * TwoTo((i + 1) / (repeat + 1))
  }

  ghost predicate CellsAre(k: Counts, repeat: nat, filters: nat, cells: seq<Cell>) {
    forall i: nat :: i < |cells| ==> CellIs(k, repeat, filters, cells, i)
  }

  lemma OneMoreCell(k: Counts, repeat: nat, filters: nat, cells: seq<Cell>, c: Cell)
    requires CellsAre(k, repeat, filters, cells)
    requires CellIs(k, repeat, filters, cells + [c], |cells|)
    ensures CellsAre(k, repeat, filters, cells + [c])
  {
    var all := cells + [c];
    hide CountsAfter, TwoTo;
    forall i: nat | i < |all| ensures CellIs(k, repeat, filters, all, i) {
      if i < |cells| {
        assert CellIs(k, repeat, filters, cells, i);
        assert all[..i] == cells[..i];
      }
    }
  }

  /** A block of n normal cells after `stages` whole stages. */
  lemma {:induction false} NormalCellsAre(k: Counts, repeat: nat, filters: nat, stages: nat, cells: seq<Cell>, n: nat)
    requires CellsAre(k, repeat, filters, cells) && |cells| == stages * (repeat + 1) && n <= repeat
    ensures var (normal, after) := NormalCells(CountsAfter(k, cells), n, filters * TwoTo(stages));
      && |normal| == n && CellsAre(k, repeat, filters, cells + normal) && after == CountsAfter(k, cells + normal)
  {
    var f := filters * TwoTo(stages);
    if n == 0 {
      assert cells + [] == cells;
    } else {
      NormalCellsAre(k, repeat, filters, stages, cells, n - 1);
      var (normal, before) := NormalCells(CountsAfter(k, cells), n - 1, f);
      var c := NormalCell(before.x, before.prev, f);
      hide CellsAre, TwoTo, NormalCells;
      var all := cells + normal;
      assert all + [c] == cells + (normal + [c]);
      DivModUnique(|all| + 1, repeat + 1, stages, n);
      assert (all + [c])[..|all|] == all;
      OneMoreCell(k, repeat, filters, all, c);
      LastCounts(k, all, c);
      assert NormalCells(CountsAfter(k, cells), n, f) == (normal + [c], AfterNormal(before, f)) by {
        NormalCellsStep(CountsAfter(k, cells), n, f);
      }
    }
  }

  lemma NormalCellsStep(k: Counts, n: nat, f: nat)
    requires n > 0
    ensures var (cells, before) := NormalCells(k, n - 1, f);
      NormalCells(k, n, f) == (cells + [NormalCell(before.x, before.prev, f)], AfterNormal(before, f))
  {
  }

  lemma LastCounts(k: Counts, cells: seq<Cell>, c: Cell)
    ensures CountsAfter(k, cells + [c]) == Counts(if c.NormalCell? then c.output * 6 else c.output * 4, c.xIn)
  {
  }

  lemma {:induction false} StagesAre(k: Counts, repeat: nat, stages: nat, filters: nat)
    ensures var (cells, after, f) := Stages(k, repeat, stages, filters);
      && |cells| == stages * (repeat + 1) && f == filters * TwoTo(stages)
      && CellsAre(k, repeat, filters, cells) && after == CountsAfter(k, cells)
  {
    if stages > 0 {
      StagesAre(k, repeat, stages - 1, filters);
      var (cells, k1, f) := Stages(k, repeat, stages - 1, filters);
      NormalCellsAre(k, repeat, filters, stages - 1, cells, repeat);
      var (normal, k2) := NormalCells(k1, repeat, f);
      var c := ReductionCell(k2.x, k2.prev, f * 2);
      NextStageIs(k, repeat, stages, filters, cells + normal, c);
    }
  }

  lemma NextStageIs(k: Counts, repeat: nat, stages: nat, filters: nat, cells: seq<Cell>, c: Cell)
    requires stages > 0 && |cells| == (stages - 1) * (repeat + 1) + repeat && CellsAre(k, repeat, filters, cells)
    requires var before := CountsAfter(k, cells);
      c == ReductionCell(before.x, before.prev, filters * TwoTo(stages - 1) * 2)
    ensures |cells + [c]| == stages * (repeat + 1) && filters * TwoTo(stages) == filters * TwoTo(stages - 1) * 2
    ensures CellsAre(k, repeat, filters, cells + [c])
    ensures CountsAfter(k, cells + [c]) == AfterReduction(CountsAfter(k, cells), c.output)
  {
    assert filters * TwoTo(stages) == filters * TwoTo(stages - 1) * 2;
    hide CellsAre, TwoTo;
    DivModUnique(|cells| + 1, repeat + 1, stages, 0);
    assert (cells + [c])[..|cells|] == cells;
    OneMoreCell(k, repeat, filters, cells, c);
    LastCounts(k, cells, c);
  }

  /** Every network has (reductions + 1) * repeat + reductions cells, of the right kinds and sizes, each taking what the
      two before it give, and its linear layer takes six times the last filters. */
  lemma BuiltAs(repeat: nat, reductions: nat, filters: nat, stem: nat)
    ensures var n := Build(repeat, reductions, filters, stem);
      && |n.cells| == (reductions + 1) * repeat + reductions
      && CellsAre(Counts(stem, stem), repeat, filters, n.cells)
      && n.stem == stem && n.linearIn == 6 * (filters * TwoTo(reductions))
  {
    var k := Counts(stem, stem);
    StagesAre(k, repeat, reductions, filters);
    var (cells, _, f) := Stages(k, repeat, reductions, filters);
    NormalCellsAre(k, repeat, filters, reductions, cells, repeat);
    hide CellsAre, TwoTo, Stages, NormalCells, CountsAfter;
    assert reductions * (repeat + 1) + repeat == (reductions + 1) * repeat + reductions;
  }
}
