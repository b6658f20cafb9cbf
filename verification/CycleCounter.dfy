/** Reading the 64-bit cycle counter through its two 32-bit halves (perf_get_mcycle64 of perf.h). */
module CycleCounter {
  import opened Words

  /** The number of ticks since start, without wrap-around, at each successive register read. */
  type Schedule = nat -> nat

  /** The counter never runs backwards. */
  ghost predicate Monotone(c: Schedule) {
    forall i: nat, j: nat :: i <= j ==> c(i) <= c(j)
  }

  /** The two counter registers: 64 bits of the tick count, in halves. */
  function Mcycleh(ticks: nat): uint32 { ticks / TWO_32 % TWO_32 }

  function Mcycle(ticks: nat): uint32 { ticks % TWO_32 }

  /** Pass p of the loop makes the reads 3p, 3p+1 and 3p+2; it ends the loop when both high reads agree. */
  predicate Settles(c: Schedule, p: nat) {
    Mcycleh(c(3 * p)) == Mcycleh(c(3 * p + 2))
  }

  /** The first pass from `from` on that settles, when pass `some` does. */
  ghost function FirstSettling(c: Schedule, from: nat, some: nat): (p: nat)
    requires from <= some && Settles(c, some)
    ensures from <= p <= some && Settles(c, p) && forall q :: from <= q < p ==> !Settles(c, q)
    decreases some - from
  {
    if Settles(c, from) then from else FirstSettling(c, from + 1, some)
  }

  /** The loop ends on a schedule that has a pass that settles, with the halves read by the first such pass. When that
      pass is short enough, they are the counter as it stood at the low read. */
  method GetMcycle64(c: Schedule, ghost some: nat) returns (r: nat)
    requires Settles(c, some)
    ensures var p := FirstSettling(c, 0, some);
      && r == Mcycleh(c(3 * p)) * TWO_32 + Mcycle(c(3 * p + 1))
      && (Monotone(c) && c(3 * p + 2) - c(3 * p) <= TWO_64 - TWO_32 ==> r == c(3 * p + 1) % TWO_64)
  {
    hide Mcycleh, Mcycle, Monotone;
    ghost var p := FirstSettling(c, 0, some);
    ghost var passes := 0;
    var readCount := 0;
    var high := Mcycleh(c(0));
    var low := Mcycle(c(1));
    var high2 := Mcycleh(c(2));
    while high != high2
      invariant readCount == 3 * passes && passes <= p
      invariant high == Mcycleh(c(readCount)) && low == Mcycle(c(readCount + 1)) && high2 == Mcycleh(c(readCount + 2))
      decreases p - passes
    {
      readCount := readCount + 3;
      passes := passes + 1;
      high := Mcycleh(c(readCount));
      low := Mcycle(c(readCount + 1));
      high2 := Mcycleh(c(readCount + 2));
    }
    assert Settles(c, passes);
    r := high * TWO_32 + low;
    if Monotone(c) && c(3 * p + 2) - c(3 * p) <= TWO_64 - TWO_32 {
      NotTorn(c, p);
    }
  }

  lemma Halves(ticks: nat)
    ensures Mcycleh(ticks) * TWO_32 + Mcycle(ticks) == ticks % TWO_64
  {
    var h, q := ticks / TWO_32, ticks / TWO_32 / TWO_32;
    assert ticks == (q * TWO_32 + h % TWO_32) * TWO_32 + ticks % TWO_32;
    DivModUnique(ticks, TWO_64, q, h % TWO_32 * TWO_32 + ticks % TWO_32);
  }

  /** No torn reads: if the settling pass takes at most 2^64 - 2^32 ticks, the halves belong together and give the value
      the counter held at the low read, wrap-around of the whole counter included. */
  lemma NotTorn(c: Schedule, p: nat)
    requires Monotone(c) && Settles(c, p) && c(3 * p + 2) - c(3 * p) <= TWO_64 - TWO_32
    ensures Mcycleh(c(3 * p)) * TWO_32 + Mcycle(c(3 * p + 1)) == c(3 * p + 1) % TWO_64
  {
    var before, at, after := c(3 * p), c(3 * p + 1), c(3 * p + 2);
    assert before <= at <= after;
    SameHigh(before, after);
    assert at / TWO_32 == before / TWO_32;
    Halves(at);
  }

  /** Equal high registers on a short pass mean that no carry left the low half. */
  lemma SameHigh(before: nat, after: nat)
    requires before <= after <= before + (TWO_64 - TWO_32) && Mcycleh(before) == Mcycleh(after)
    ensures before / TWO_32 == after / TWO_32
  {
  }

  /** One tick more and the value can be wrong. */
  lemma TornBeyondLimit() returns (c: Schedule)
    ensures Monotone(c) && Settles(c, 0) && c(2) - c(0) == TWO_64 - TWO_32 + 1
    ensures Mcycleh(c(0)) * TWO_32 + Mcycle(c(1)) != c(1) % TWO_64
  {
    c := (i: nat) => if i == 0 then 0xFFFF_FFFF else if i == 1 then 0x1_0000_0000 else TWO_64;
    assert c(0) == 0xFFFF_FFFF && c(1) == 0x1_0000_0000 && c(2) == TWO_64;
    assert Mcycleh(c(0)) == 0 && Mcycle(c(1)) == 0 && Mcycleh(c(2)) == 0;
  }

  /** A pass that does not settle saw the high half advance. */
  lemma UnsettledAdvances(c: Schedule, p: nat)
    requires Monotone(c) && !Settles(c, p)
    ensures c(3 * p) / TWO_32 < c(3 * p + 2) / TWO_32 <= c(3 * p + 3) / TWO_32
  {
  }

  /** The halves read in pass p are the counter as it stood at the low read. */
  ghost predicate Whole(c: Schedule, p: nat) {
    Mcycleh(c(3 * p)) * TWO_32 + Mcycle(c(3 * p + 1)) == c(3 * p + 1) % TWO_64
  }

  /** A settling pass of at most `limit` ticks. */
  ghost predicate SettlesWithin(c: Schedule, p: nat, limit: nat) {
    Monotone(c) && Settles(c, p) && c(3 * p + 2) - c(3 * p) <= limit
  }

  /** Every pass of at most `limit` ticks that ends the loop gives a whole value exactly when the limit is at most
      2^64 - 2^32. */
  lemma WholeIff(limit: nat)
    ensures (forall c: Schedule, p: nat :: SettlesWithin(c, p, limit) ==> Whole(c, p)) <==> limit <= TWO_64 - TWO_32
  {
    hide Mcycleh, Mcycle, Monotone;
    if limit <= TWO_64 - TWO_32 {
      forall c: Schedule, p: nat | SettlesWithin(c, p, limit) ensures Whole(c, p) {
        NotTorn(c, p);
      }
    } else {
      var c := TornBeyondLimit();
      assert SettlesWithin(c, 0, limit) && !Whole(c, 0);
    }
  }

  /** When two passes together take at most 2^32 ticks, the loop retries at most once. */
  lemma AtMostOneRetry(c: Schedule)
    requires Monotone(c) && c(5) - c(0) <= TWO_32
    ensures Settles(c, 0) || Settles(c, 1)
  {
    if !Settles(c, 0) && !Settles(c, 1) {
      UnsettledAdvances(c, 0);
      UnsettledAdvances(c, 1);
      HighApart(c(0), c(5));
    }
  }

  ghost predicate TwoPassesWithin(c: Schedule, limit: nat) {
    Monotone(c) && c(5) - c(0) <= limit
  }

  /** One of the first two passes always settles exactly when they are known to take at most 2^32 ticks. */
  lemma OneRetryIff(limit: nat)
    ensures (forall c: Schedule :: TwoPassesWithin(c, limit) ==> Settles(c, 0) || Settles(c, 1)) <==> limit <= TWO_32
  {
    hide Settles, Monotone;
    if limit <= TWO_32 {
      forall c: Schedule | TwoPassesWithin(c, limit) ensures Settles(c, 0) || Settles(c, 1) {
        AtMostOneRetry(c);
      }
    } else {
      var c := TwoRetries();
      assert TwoPassesWithin(c, limit);
    }
  }

  lemma TwoRetries() returns (c: Schedule)
    ensures Monotone(c) && c(5) - c(0) == TWO_32 + 1 && !Settles(c, 0) && !Settles(c, 1)
  {
    c := (i: nat) => if i < 2 then 0xFFFF_FFFF else if i < 5 then TWO_32 else 2 * TWO_32;
    assert c(0) == 0xFFFF_FFFF && c(2) == c(3) == TWO_32 && c(5) == 2 * TWO_32;
    assert Mcycleh(c(0)) == 0 && Mcycleh(c(2)) == Mcycleh(c(3)) == 1 && Mcycleh(c(5)) == 2;
  }

  lemma HighApart(before: nat, after: nat)
    requires before / TWO_32 + 2 <= after / TWO_32
    ensures after - before > TWO_32
  {
  }

  /** Without wrap-around of the 64-bit counter the loop always ends: some pass settles. */
  lemma SomePassSettles(c: Schedule) returns (p: nat)
    requires Monotone(c) && forall i: nat :: c(i) < TWO_64
    ensures Settles(c, p)
  {
    p := 0;
    while !Settles(c, p)
      invariant c(3 * p) / TWO_32 >= p
      decreases TWO_32 - p
    {
      UnsettledAdvances(c, p);
      assert c(3 * (p + 1)) == c(3 * p + 3);
      p := p + 1;
      assert c(3 * p) < TWO_64;
    }
  }
}
