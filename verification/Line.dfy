/** Bresenham line drawing into a framebuffer (fb_draw_line of fb_util.c). */
module Line {
  import opened Words

  /** The word index of pixel (x, y) in a framebuffer w pixels wide. */
  function Address(w: nat, x: int, y: int): int {
    y * w + x
  }

  predicate InFrame(w: nat, h: nat, x: int, y: int) {
    0 <= x < w && 0 <= y < h
  }

  /** A framebuffer of w by h words; up to 2^28 of them, so that the error term fits its 32-bit variable. */
  ghost predicate IsFrame(fb: array<uint32>, w: nat, h: nat) {
    fb.Length == w * h <= 0x1000_0000
  }

  lemma AddressInFrame(w: nat, h: nat, x: int, y: int)
    requires InFrame(w, h, x, y)
    ensures 0 <= Address(w, x, y) < w * h
  {
    assert y * w <= (h - 1) * w;
  }

  lemma AddressInjective(w: nat, x: int, y: int, x': int, y': int)
    requires 0 <= x < w && 0 <= x' < w && Address(w, x, y) == Address(w, x', y')
    ensures x == x' && y == y'
  {
    MulMono(w, y + 1, y');
    MulMono(w, y' + 1, y);
  }

  // ---------- which pixels a line paints ----------

  /** The line climbs more than one row a column, which this routine does not handle. */
  predicate Steep(x0: int, y0: int, x1: int, y1: int) {
    x0 != x1 && Abs(y1 - y0) > Abs(x1 - x0)
  }

  /** The pixel j rows up in column i is nearest to the line through (0, 0) and (dx, dy): its distance is at most
      half a row, with ties going down. */
  predicate Nearest(dx: int, dy: int, i: int, j: int) {
    -dx < 2 * (dy * i) - 2 * (dx * j) <= dx
  }

  /** Column i of a line that runs dx columns right and dy rows up holds a pixel at row j. */
  predicate Rises(dx: int, dy: int, i: int, j: int) {
    if dy <= dx then Nearest(dx, dy, i, j) else j == i
  }

  /** The pixels of a line drawn from left to right. */
  predicate PaintedRight(xl: int, yl: int, xr: int, yr: int, x: int, y: int) {
    xl <= x <= xr && Rises(xr - xl, Abs(yr - yl), x - xl, if yl <= yr then y - yl else yl - y)
  }

  /** The pixels that the routine paints, by a test on each pixel. */
  predicate Painted(x0: int, y0: int, x1: int, y1: int, x: int, y: int) {
    if x0 == x1 then x == x0 && (y0 <= y <= y1 || y1 <= y <= y0)
    else if x0 < x1 then PaintedRight(x0, y0, x1, y1, x, y)
    else PaintedRight(x1, y1, x0, y0, x, y)
  }

  // ---------- the routine ----------

  method Plot(fb: array<uint32>, w: nat, h: nat, x: int, y: int, color: uint32)
    requires IsFrame(fb, w, h) && InFrame(w, h, x, y)
    modifies fb
    ensures forall px, py :: InFrame(w, h, px, py) ==> 0 <= Address(w, px, py) < fb.Length
    ensures forall px, py :: InFrame(w, h, px, py) ==>
      fb[Address(w, px, py)] == if px == x && py == y then color else old(fb[Address(w, px, py)])
  {
    forall px, py | InFrame(w, h, px, py)
      ensures 0 <= Address(w, px, py) < fb.Length
      ensures Address(w, px, py) == Address(w, x, y) ==> px == x && py == y
    {
      AddressInFrame(w, h, px, py);
      if Address(w, px, py) == Address(w, x, y) {
        AddressInjective(w, px, py, x, y);
      }
    }
    fb[y * w + x] := color;
  }

  method DrawLine(fb: array<uint32>, w: nat, h: nat, x0: nat, y0: nat, x1: nat, y1: nat, color: uint32)
    requires IsFrame(fb, w, h) && InFrame(w, h, x0, y0) && InFrame(w, h, x1, y1)
    modifies fb
    ensures forall px, py :: InFrame(w, h, px, py) ==> 0 <= Address(w, px, py) < fb.Length
    ensures forall px, py :: InFrame(w, h, px, py) ==>
      fb[Address(w, px, py)] == if Painted(x0, y0, x1, y1, px, py) then color else old(fb[Address(w, px, py)])
  {
    var dx, dy := x1 - x0, y1 - y0;
    if dx == 0 && dy == 0 {
      Plot(fb, w, h, x0, y0, color);
    } else if dx == 0 {
      var start, stop := if y0 < y1 then y0 else y1, if y0 < y1 then y1 else y0;
      DrawVertical(fb, w, h, x0, start, stop, color);
    } else if dy == 0 {
      var start, stop := if x0 < x1 then x0 else x1, if x0 < x1 then x1 else x0;
      DrawHorizontal(fb, w, h, start, stop, y0, color);
      forall px, py ensures Painted(x0, y0, x1, y1, px, py) <==> start <= px <= stop && py == y0 {
        FlatIsNearest(stop - start, px - start, py - y0);
        FlatIsNearest(stop - start, px - start, y0 - py);
      }
    } else if x1 < x0 {
      DrawSlope(fb, w, h, x1, y1, x0, y0, color);
    } else {
      DrawSlope(fb, w, h, x0, y0, x1, y1, color);
    }
  }

  method DrawVertical(fb: array<uint32>, w: nat, h: nat, x: nat, start: nat, stop: nat, color: uint32)
    requires IsFrame(fb, w, h) && InFrame(w, h, x, start) && InFrame(w, h, x, stop) && start <= stop
    modifies fb
    ensures forall px, py :: InFrame(w, h, px, py) ==> 0 <= Address(w, px, py) < fb.Length
    ensures forall px, py :: InFrame(w, h, px, py) ==>
      fb[Address(w, px, py)] == if px == x && start <= py <= stop then color else old(fb[Address(w, px, py)])
  {
    hide Address;
    forall px, py | InFrame(w, h, px, py) ensures 0 <= Address(w, px, py) < fb.Length {
      AddressInFrame(w, h, px, py);
    }
    var i := start;
    while i <= stop
      invariant start <= i <= stop + 1
      invariant forall px, py :: InFrame(w, h, px, py) ==>
        fb[Address(w, px, py)] == if px == x && start <= py < i then color else old(fb[Address(w, px, py)])
    {
      Plot(fb, w, h, x, i, color);
      i := i + 1;
    }
  }

  method DrawHorizontal(fb: array<uint32>, w: nat, h: nat, start: nat, stop: nat, y: nat, color: uint32)
    requires IsFrame(fb, w, h) && InFrame(w, h, start, y) && InFrame(w, h, stop, y) && start <= stop
    modifies fb
    ensures forall px, py :: InFrame(w, h, px, py) ==> 0 <= Address(w, px, py) < fb.Length
    ensures forall px, py :: InFrame(w, h, px, py) ==>
      fb[Address(w, px, py)] == if start <= px <= stop && py == y then color else old(fb[Address(w, px, py)])
  {
    hide Address;
    forall px, py | InFrame(w, h, px, py) ensures 0 <= Address(w, px, py) < fb.Length {
      AddressInFrame(w, h, px, py);
    }
    var i := start;
    while i <= stop
      invariant start <= i <= stop + 1
      invariant forall px, py :: InFrame(w, h, px, py) ==>
        fb[Address(w, px, py)] == if start <= px < i && py == y then color else old(fb[Address(w, px, py)])
    {
      Plot(fb, w, h, i, y, color);
      i := i + 1;
    }
  }

  /** The general case, with the ends already in left-to-right order. */
  method DrawSlope(fb: array<uint32>, w: nat, h: nat, xl: nat, yl: nat, xr: nat, yr: nat, color: uint32)
    requires IsFrame(fb, w, h) && InFrame(w, h, xl, yl) && InFrame(w, h, xr, yr) && xl < xr
    modifies fb
    ensures forall px, py :: InFrame(w, h, px, py) ==> 0 <= Address(w, px, py) < fb.Length
    ensures forall px, py :: InFrame(w, h, px, py) ==>
      fb[Address(w, px, py)] == if PaintedRight(xl, yl, xr, yr, px, py) then color else old(fb[Address(w, px, py)])
  {
    hide Address, Rises, Tracks, PaintedRight;
    forall px, py | InFrame(w, h, px, py) ensures 0 <= Address(w, px, py) < fb.Length {
      AddressInFrame(w, h, px, py);
    }
    forall px, py | PaintedRight(xl, yl, xr, yr, px, py) ensures xl <= px <= xr {
      PaintedInColumns(xl, yl, xr, yr, px, py);
    }
    var flip := yr < yl;
    var y0, y1 := if flip then yr else yl, if flip then yl else yr;
    var x, y := xl, y0;
    var dx, dy := xr - xl, y1 - y0;
    StartNearest(dx, dy);
    ErrorInRange(w, h, dx, dy, 0, 0, 2 * dy - dx);
    ErrorFits(w, h, dx, dy);
    var d: int32 := 2 * dy - dx;
    var xIncrement: int32, yIncrement: int32 := 2 * dy, 2 * (dy - dx);
    while x <= xr
      invariant xl <= x <= xr + 1
      invariant y0 <= y
      invariant x <= xr ==> Rises(dx, dy, x - xl, y - y0)
      invariant Tracks(dx, dy, x - xl, y - y0, d)
      invariant forall px, py :: InFrame(w, h, px, py) ==>
        fb[Address(w, px, py)] ==
        if px < x && PaintedRight(xl, yl, xr, yr, px, py) then color else old(fb[Address(w, px, py)])
    {
      RisesInside(dx, dy, x - xl, y - y0);
      var row := if !flip then y else y0 + y1 - y;
      ColumnPainted(xl, yl, xr, yr, x, y);
      Plot(fb, w, h, x, row, color);
      NextColumn(dx, dy, x - xl, y - y0, d);
      if d <= 0 {
        ErrorInRange(w, h, dx, dy, x - xl + 1, y - y0, d + xIncrement);
        d := d + xIncrement;
      } else {
        ErrorInRange(w, h, dx, dy, x - xl + 1, y - y0 + 1, d + yIncrement);
        y := y + 1;
        d := d + yIncrement;
      }
      x := x + 1;
    }
  }

  /** The loop's row y of column x, mirrored when the line falls, is the column's painted pixel. */
  lemma ColumnPainted(xl: int, yl: int, xr: int, yr: int, x: int, y: int)
    requires var low := if yr < yl then yr else yl;
      xl <= x <= xr && xl < xr && Rises(xr - xl, Abs(yr - yl), x - xl, y - low)
    ensures var row := if yr < yl then yr + yl - y else y;
      forall py :: PaintedRight(xl, yl, xr, yr, x, py) <==> py == row
  {
    hide Rises;
    var low := if yr < yl then yr else yl;
    var row := if yr < yl then yr + yl - y else y;
    forall py ensures PaintedRight(xl, yl, xr, yr, x, py) <==> py == row {
      RisesOnce(xr - xl, Abs(yr - yl), x - xl, y - low, if yl <= yr then py - yl else yl - py);
    }
  }

  lemma PaintedInColumns(xl: int, yl: int, xr: int, yr: int, x: int, y: int)
    requires PaintedRight(xl, yl, xr, yr, x, y)
    ensures xl <= x <= xr
  {
  }

  // ---------- the error term ----------

  /** The error variable after i columns and j rows, and what it says about the current pixel. */
  ghost predicate Tracks(dx: int, dy: int, i: int, j: int, d: int) {
    && d == 2 * (dy * i) - 2 * (dx * j) + 2 * dy - dx
    && (dy <= dx ==> Nearest(dx, dy, i, j))
    && (dy > dx ==> j == i && d > 0)
  }

  lemma FlatIsNearest(dx: int, i: int, j: int)
    requires dx > 0
    ensures Nearest(dx, 0, i, j) <==> j == 0
  {
  }

  lemma StartNearest(dx: int, dy: int)
    requires dx > 0 && dy >= 0
    ensures Rises(dx, dy, 0, 0) && Tracks(dx, dy, 0, 0, 2 * dy - dx)
  {
  }

  /** A frame of at most 2^28 pixels keeps every value of the error term in 32 bits. */
  lemma ErrorFits(w: nat, h: nat, dx: int, dy: int)
    requires 0 < dx < w && 0 <= dy < h && w * h <= 0x1000_0000
    ensures dx <= 0x1000_0000 && dy <= 0x1000_0000 && dy * (dx + 2) <= 0x3000_0000
  {
    MulMono(w, 1, h);
    MulMono(h, 1, w);
    MulMono(dx, dy, h);
    MulMono(h, dx, w);
    MulMono(dy, 1, dx);
    assert dy * (dx + 2) == dy * dx + 2 * dy;
  }

  /** One turn of the loop moves the error term to the next column, choosing the nearest row there. */
  lemma NextColumn(dx: int, dy: int, i: int, j: int, d: int)
    requires dx > 0 && dy >= 0 && Tracks(dx, dy, i, j, d)
    ensures d <= 0 ==> Tracks(dx, dy, i + 1, j, d + 2 * dy) && Rises(dx, dy, i + 1, j)
    ensures d > 0 ==> Tracks(dx, dy, i + 1, j + 1, d + 2 * (dy - dx)) && Rises(dx, dy, i + 1, j + 1)
  {
  }

  /** The error term never leaves its 32-bit variable. */
  lemma ErrorInRange(w: nat, h: nat, dx: int, dy: int, i: int, j: int, d: int)
    requires 0 < dx < w && 0 <= dy < h && w * h <= 0x1000_0000
    requires 0 <= i <= dx + 1 && Tracks(dx, dy, i, j, d)
    ensures -0x8000_0000 <= d < 0x8000_0000
  {
    ErrorFits(w, h, dx, dy);
    MulMono(dy, i, dx + 1);
    MulMono(dx, 0, j);
    RowsAfter(dy, dx);
    ErrorBound(dx, dy, dy * i, dx * j, dy * (dx + 1), j, d);
  }

  lemma RowsAfter(dy: int, dx: int)
    ensures dy * (dx + 1) + dy == dy * (dx + 2)
  {
  }

  /** The bounds, with the products as numbers: p is dy*i, q is dx*j. */
  lemma ErrorBound(dx: int, dy: int, p: int, q: int, most: int, j: int, d: int)
    requires 0 < dx <= 0x1000_0000 && 0 <= dy <= 0x1000_0000 && p <= most && most + dy <= 0x3000_0000
    requires d == 2 * p - 2 * q + 2 * dy - dx
    requires dy <= dx ==> -dx < 2 * p - 2 * q <= dx
    requires dy > dx ==> d > 0 && (0 <= j ==> 0 <= q) && 0 <= j
    ensures -0x8000_0000 <= d < 0x8000_0000
  {
  }

  /** A painted row stays between the two ends. */
  lemma RisesInside(dx: int, dy: int, i: int, j: int)
    requires dx > 0 && dy >= 0 && 0 <= i <= dx && Rises(dx, dy, i, j)
    ensures 0 <= j <= dy
  {
    MulMono(dy, 0, i);
    MulMono(dy, i, dx);
    MulMono(dx, j, -1);
    MulMono(dx, dy + 1, j);
  }

  /** A column has one painted row. */
  lemma RisesOnce(dx: int, dy: int, i: int, j: int, j': int)
    requires dx > 0 && Rises(dx, dy, i, j)
    ensures Rises(dx, dy, i, j') <==> j' == j
  {
    MulMono(dx, j + 1, j');
    MulMono(dx, j' + 1, j);
  }

  // ---------- what the painted pixels look like ----------

  lemma {:induction false} RiseExists(dx: int, dy: int, i: nat) returns (j: int)
    requires dx > 0 && dy >= 0
    ensures Rises(dx, dy, i, j)
  {
    if dy > dx {
      j := i;
    } else if i == 0 {
      j := 0;
    } else {
      j := RiseExists(dx, dy, i - 1);
      assert dy * i == dy * (i - 1) + dy;
      if 2 * (dy * i) - 2 * (dx * j) > dx {
        assert dx * (j + 1) == dx * j + dx;
        j := j + 1;
      }
    }
  }

  /** Every column between the ends has exactly one painted pixel, and it lies between the end rows. */
  lemma OnePixelPerColumn(x0: int, y0: int, x1: int, y1: int, x: int) returns (y: int)
    requires x0 != x1 && (x0 <= x <= x1 || x1 <= x <= x0)
    ensures forall py :: Painted(x0, y0, x1, y1, x, py) <==> py == y
    ensures y0 <= y <= y1 || y1 <= y <= y0
  {
    var xl, yl, xr, yr := x0, y0, x1, y1;
    if x1 < x0 {
      xl, yl, xr, yr := x1, y1, x0, y0;
    }
    var dx, dy := xr - xl, Abs(yr - yl);
    var j := RiseExists(dx, dy, x - xl);
    RisesInside(dx, dy, x - xl, j);
    y := if yl <= yr then yl + j else yl - j;
    forall py ensures PaintedRight(xl, yl, xr, yr, x, py) <==> py == y {
      RisesOnce(dx, dy, x - xl, j, if yl <= yr then py - yl else yl - py);
    }
  }

  /** Drawing from either end paints the same pixels. */
  lemma DirectionIrrelevant(x0: int, y0: int, x1: int, y1: int, x: int, y: int)
    ensures Painted(x0, y0, x1, y1, x, y) <==> Painted(x1, y1, x0, y0, x, y)
  {
  }

  /** dx times the vertical distance from (x, y) to the line. */
  function Deviation(x0: int, y0: int, x1: int, y1: int, x: int, y: int): int {
    (y1 - y0) * (x - x0) - (x1 - x0) * (y - y0)
  }

  lemma DeviationReversed(x0: int, y0: int, x1: int, y1: int, x: int, y: int)
    ensures Deviation(x0, y0, x1, y1, x, y) == -Deviation(x1, y1, x0, y0, x, y)
  {
  }

  /** dx times the distance from (x, y) to the line, counted from the left end's row toward the right end's. */
  function Lag(x0: int, y0: int, x1: int, y1: int, x: int, y: int): int {
    if (x0 < x1) == (if x0 < x1 then y0 <= y1 else y1 <= y0) then Deviation(x0, y0, x1, y1, x, y)
    else -Deviation(x0, y0, x1, y1, x, y)
  }

  /** A line that is not steep paints exactly the pixels between its end columns that are nearest to it; of two equally
      near ones, that on the side of the left end. */
  lemma PaintedIffNearest(x0: int, y0: int, x1: int, y1: int, x: int, y: int)
    requires x0 != x1 && !Steep(x0, y0, x1, y1)
    ensures Painted(x0, y0, x1, y1, x, y) <==>
      (x0 <= x <= x1 || x1 <= x <= x0) && 0 - Abs(x1 - x0) < 2 * Lag(x0, y0, x1, y1, x, y) <= Abs(x1 - x0)
  {
    if x0 < x1 {
      NearestFromLeft(x0, y0, x1, y1, x, y);
    } else {
      DirectionIrrelevant(x0, y0, x1, y1, x, y);
      NearestFromLeft(x1, y1, x0, y0, x, y);
      DeviationReversed(x0, y0, x1, y1, x, y);
    }
  }

  lemma NearestFromLeft(xl: int, yl: int, xr: int, yr: int, x: int, y: int)
    requires xl < xr && Abs(yr - yl) <= xr - xl
    ensures Painted(xl, yl, xr, yr, x, y) <==>
      xl <= x <= xr && -(xr - xl) < 2 * Lag(xl, yl, xr, yr, x, y) <= xr - xl
  {
    var dx, dy, i, j := xr - xl, yr - yl, x - xl, y - yl;
    Mirrored(dx, dy, i, j);
    hide Nearest;
    NearestIs(dx, Abs(dy), i, if yl <= yr then j else -j, Lag(xl, yl, xr, yr, x, y));
  }

  lemma NearestIs(dx: int, dy: int, i: int, j: int, lag: int)
    requires lag == dy * i - dx * j
    ensures Nearest(dx, dy, i, j) <==> -dx < 2 * lag <= dx
  {
  }

  lemma Mirrored(dx: int, dy: int, i: int, j: int)
    ensures (-dy) * i == -(dy * i) && dx * (-j) == -(dx * j)
  {
  }

  /** Every painted pixel is within half a row of the true line, and none lies outside its columns. */
  lemma WithinHalfPixel(x0: int, y0: int, x1: int, y1: int, x: int, y: int)
    requires x0 != x1 && !Steep(x0, y0, x1, y1) && Painted(x0, y0, x1, y1, x, y)
    ensures x0 <= x <= x1 || x1 <= x <= x0
    ensures 2 * Abs(Deviation(x0, y0, x1, y1, x, y)) <= Abs(x1 - x0)
  {
    hide Painted, Steep, Deviation;
    PaintedIffNearest(x0, y0, x1, y1, x, y);
  }

  /** The line includes both of its ends exactly when it is not steep. */
  lemma EndsPaintedUnlessSteep(x0: int, y0: int, x1: int, y1: int)
    ensures Painted(x0, y0, x1, y1, x0, y0) && Painted(x0, y0, x1, y1, x1, y1) <==> !Steep(x0, y0, x1, y1)
  {
  }

  // ---------- the painted pixels form one path ----------

  type Pixel = (int, int)

  /** Two pixels that touch, at a side or at a corner. */
  predicate Touch(p: Pixel, q: Pixel) {
    Abs(p.0 - q.0) <= 1 && Abs(p.1 - q.1) <= 1
  }

  /** From one column to the next the painted row moves by at most one. */
  lemma RisesByOne(dx: int, dy: int, i: int, j: int, j': int)
    requires dx > 0 && dy >= 0 && Rises(dx, dy, i, j) && Rises(dx, dy, i + 1, j')
    ensures j <= j' <= j + 1
  {
    if dy <= dx {
      assert dy * (i + 1) == dy * i + dy && dx * (j' - j) == dx * j' - dx * j;
      hide Rises;
      RowsMoved(dx, dy, dy * i, dx * j, dx * j', dx * (j' - j), j' - j);
    }
  }

  lemma RowsMoved(dx: int, dy: int, e: int, p: int, q: int, moved: int, rows: int)
    requires 0 <= dy <= dx && dx > 0 && moved == q - p && moved == dx * rows
    requires -dx < 2 * e - 2 * p <= dx && -dx < 2 * (e + dy) - 2 * q <= dx
    ensures 0 <= rows <= 1
  {
    assert -dx < moved < 2 * dx;
    MulMono(dx, rows, -1);
    MulMono(dx, 2, rows);
  }

  lemma NeighboursTouch(x0: int, y0: int, x1: int, y1: int, x: int, y: int, y': int)
    requires x0 != x1 && Painted(x0, y0, x1, y1, x, y) && Painted(x0, y0, x1, y1, x + 1, y')
    ensures Abs(y' - y) <= 1
  {
    hide Rises;
    var xl, yl, xr, yr := x0, y0, x1, y1;
    if x1 < x0 {
      xl, yl, xr, yr := x1, y1, x0, y0;
    }
    RisesByOne(xr - xl, Abs(yr - yl), x - xl, if yl <= yr then y - yl else yl - y,
               if yl <= yr then y' - yl else yl - y');
  }

  /** The first n columns from (x0, y0)'s on, with their painted pixels. */
  ghost predicate PathOver(x0: int, y0: int, x1: int, y1: int, path: seq<Pixel>) {
    && (forall k :: 0 <= k < |path| ==>
         path[k].0 == (if x0 < x1 then x0 + k else x0 - k) && Painted(x0, y0, x1, y1, path[k].0, path[k].1))
    && (forall k :: 0 < k < |path| ==> Touch(path[k - 1], path[k]))
  }

  lemma {:induction false} ColumnPath(x0: int, y0: int, x1: int, y1: int, n: nat) returns (path: seq<Pixel>)
    requires x0 != x1 && n <= Abs(x1 - x0) + 1
    ensures |path| == n && PathOver(x0, y0, x1, y1, path)
  {
    hide Painted;
    path := [];
    if n > 0 {
      path := ColumnPath(x0, y0, x1, y1, n - 1);
      var x := if x0 < x1 then x0 + (n - 1) else x0 - (n - 1);
      var y := OnePixelPerColumn(x0, y0, x1, y1, x);
      if n > 1 {
        var last := path[n - 2];
        if x0 < x1 {
          NeighboursTouch(x0, y0, x1, y1, last.0, last.1, y);
        } else {
          NeighboursTouch(x0, y0, x1, y1, x, y, last.1);
        }
      }
      path := path + [(x, y)];
    }
  }

  /** The painted pixels, and no others, form one path of touching pixels; unless the line is steep it leads from one
      end to the other. */
  lemma PaintedPath(x0: int, y0: int, x1: int, y1: int) returns (path: seq<Pixel>)
    ensures |path| > 0 && forall k :: 0 < k < |path| ==> Touch(path[k - 1], path[k])
    ensures forall x, y :: Painted(x0, y0, x1, y1, x, y) <==> (x, y) in path
    ensures !Steep(x0, y0, x1, y1) ==> path[0] == (x0, y0) && path[|path| - 1] == (x1, y1)
  {
    if x0 == x1 {
      path := VerticalPath(x0, y0, y1);
      return;
    }
    path := ColumnPath(x0, y0, x1, y1, Abs(x1 - x0) + 1);
    EndsPaintedUnlessSteep(x0, y0, x1, y1);
    var first := OnePixelPerColumn(x0, y0, x1, y1, x0);
    var last := OnePixelPerColumn(x0, y0, x1, y1, x1);
    forall x, y | Painted(x0, y0, x1, y1, x, y) ensures (x, y) in path {
      PaintedColumns(x0, y0, x1, y1, x, y);
      var only := OnePixelPerColumn(x0, y0, x1, y1, x);
      assert path[Abs(x - x0)].0 == x && Painted(x0, y0, x1, y1, x, path[Abs(x - x0)].1);
      assert path[Abs(x - x0)] == (x, y);
    }
    hide Painted, Steep;
  }

  lemma PaintedColumns(x0: int, y0: int, x1: int, y1: int, x: int, y: int)
    requires x0 != x1 && Painted(x0, y0, x1, y1, x, y)
    ensures x0 <= x <= x1 || x1 <= x <= x0
  {
  }

  lemma VerticalPath(x: int, y0: int, y1: int) returns (path: seq<Pixel>)
    ensures |path| > 0 && forall k :: 0 < k < |path| ==> Touch(path[k - 1], path[k])
    ensures forall px, py :: Painted(x, y0, x, y1, px, py) <==> (px, py) in path
    ensures path[0] == (x, y0) && path[|path| - 1] == (x, y1)
  {
    path := seq(Abs(y1 - y0) + 1, k requires 0 <= k => (x, if y0 <= y1 then y0 + k else y0 - k));
    forall px, py | Painted(x, y0, x, y1, px, py) ensures (px, py) in path {
      assert path[Abs(py - y0)] == (px, py);
    }
  }
}
