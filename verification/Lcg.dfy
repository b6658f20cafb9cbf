/** The 64-bit linear congruential generator of playground_util/random.c. */
module Lcg {
  import opened Words

  const RAND_A: int := 6364136223846793005
  const RAND_C: int := 1442695040888963407

  /** One step of the generator: the product and sum wrap to a signed 64-bit word. */
  function Step(r: int64): int64 {
    ToInt64(r * RAND_A + RAND_C)
  }

  /** What a call returns: the state shifted right arithmetically by 28, cut to 32 bits. */
  function Emit(r: int64): int32 {
    ToInt32(r / 0x1000_0000)
  }

  /** The state after `n` calls. */
  function Iterate(n: nat, r: int64): int64 {
    if n == 0 then r else Step(Iterate(n - 1, r))
  }

  /** The value returned by call number `n`, counting from 0. */
  function Output(n: nat, seed: int64): int32 {
    Emit(Iterate(n + 1, seed))
  }

  class Generator {
    var r: int64

    constructor (seed: int64)
      ensures r == seed
    {
      r := seed;
    }

    method NextPseudoRandom() returns (v: int32)
      modifies this
      ensures r == Step(old(r))
      ensures v == Emit(r)
    {
      r := ToInt64(r * RAND_A + RAND_C);
      v := ToInt32(r / 0x1000_0000);
    }
  }

  /** Fills a tensor of signed bytes from one seed, one call a byte (tflite_randomize_input). */
  method RandomizeInput(seed: int64, data: array<int8>)
    modifies data
    ensures forall i :: 0 <= i < data.Length ==> data[i] == ToInt8(Output(i, seed))
  {
    var g := new Generator(seed);
    for i := 0 to data.Length
      invariant g.r == Iterate(i, seed)
      invariant forall j :: 0 <= j < i ==> data[j] == ToInt8(Output(j, seed))
    {
      var v := g.NextPseudoRandom();
      data[i] := ToInt8(v);
    }
  }

  // ---------- divisibility by powers of two, by halving ----------

  /** 2^k divides v. */
  predicate Div2(k: nat, v: int) {
    k == 0 || (v % 2 == 0 && Div2(k - 1, v / 2))
  }

  function Pow2(k: nat): nat
    ensures Pow2(k) >= 1
  {
    if k == 0 then 1 else 2 * Pow2(k - 1)
  }

  lemma {:induction false} Div2Quotient(k: nat, v: int) returns (q: int)
    requires Div2(k, v)
    ensures v == Pow2(k) * q
  {
    if k == 0 {
      q := v;
    } else {
      q := Div2Quotient(k - 1, v / 2);
    }
  }

  lemma {:induction false} Div2Multiple(k: nat, q: int)
    ensures Div2(k, Pow2(k) * q)
  {
    if k > 0 {
      assert Pow2(k) * q == 2 * (Pow2(k - 1) * q);
      Div2Multiple(k - 1, q);
    }
  }

  lemma {:induction false} Div2Sum(k: nat, u: int, v: int)
    requires Div2(k, u)
    ensures Div2(k, v) <==> Div2(k, u + v)
  {
    if k > 0 {
      if v % 2 == 0 {
        assert (u + v) / 2 == u / 2 + v / 2;
      }
      Div2Sum(k - 1, u / 2, v / 2);
    }
  }

  lemma {:induction false} Div2Negate(k: nat, u: int)
    ensures Div2(k, u) ==> Div2(k, -u)
  {
    if k > 0 && u % 2 == 0 {
      assert (-u) / 2 == -(u / 2);
      Div2Negate(k - 1, u / 2);
    }
  }

  // The definition, for a number given as twice another or one more.
  lemma Div2Even(k: nat, v: int, h: int)
    requires k > 0 && v == 2 * h
    ensures Div2(k, v) <==> Div2(k - 1, h)
  {
    assert v / 2 == h;
  }

  lemma Div2Odd(k: nat, v: int, h: int)
    requires k > 0 && v == 2 * h + 1
    ensures !Div2(k, v)
  {
  }

  lemma Div2Zero(v: int)
    ensures Div2(0, v)
  {
  }

  lemma ProductHalves(odd: int, v: int, o: int, h: int)
    requires odd == 2 * o + 1
    ensures v == 2 * h ==> odd * v == 2 * (odd * h)
    ensures v == 2 * h + 1 ==> odd * v == 2 * (2 * (o * h) + o + h) + 1
  {
    if v == 2 * h + 1 {
      assert odd * v == 2 * (o * v) + v;
      assert o * v == 2 * (o * h) + o;
    }
  }

  /** An odd factor does not change which powers of two divide a number. */
  lemma {:induction false} Div2OddFactor(k: nat, odd: int, v: int)
    requires odd % 2 == 1
    ensures Div2(k, odd * v) <==> Div2(k, v)
  {
    hide Div2;
    var o, h := odd / 2, v / 2;
    ProductHalves(odd, v, o, h);
    if k == 0 {
      Div2Zero(v);
      Div2Zero(odd * v);
    } else if v == 2 * h {
      Div2Even(k, v, h);
      Div2Even(k, odd * v, odd * h);
      Div2OddFactor(k - 1, odd, h);
    } else {
      Div2Odd(k, v, h);
      Div2Odd(k, odd * v, 2 * (o * h) + o + h);
    }
  }

  /** A multiple of a multiple. */
  lemma {:induction false} Div2Factor(k: nat, f: int, v: int)
    requires Div2(k, v)
    ensures Div2(k, f * v)
  {
    var q := Div2Quotient(k, v);
    assert f * v == Pow2(k) * (f * q);
    Div2Multiple(k, f * q);
  }

  lemma {:induction false} Div2Weaken(j: nat, k: nat, v: int)
    requires j <= k && Div2(k, v)
    ensures Div2(j, v)
  {
    if j > 0 {
      Div2Weaken(j - 1, k - 1, v / 2);
    }
  }

  /** Two numbers with exactly j factors of two have a sum with more. */
  lemma {:induction false} Div2TwoExact(j: nat, u: int, v: int)
    requires Div2(j, u) && !Div2(j + 1, u)
    requires Div2(j, v) && !Div2(j + 1, v)
    ensures Div2(j + 1, u + v)
  {
    if j == 0 {
      assert u % 2 == 1 && v % 2 == 1;
    } else {
      assert (u + v) / 2 == u / 2 + v / 2;
      Div2TwoExact(j - 1, u / 2, v / 2);
    }
  }

  /** Halving-based divisibility is the ordinary remainder test. */
  lemma {:induction false} Div2Mod(k: nat, v: int)
    ensures Div2(k, v) <==> v % Pow2(k) == 0
  {
    hide Div2, Pow2;
    if Div2(k, v) {
      var q := Div2Quotient(k, v);
      MulMod(Pow2(k), q);
    }
    if v % Pow2(k) == 0 {
      ExactQuotient(v, Pow2(k));
      Div2Multiple(k, v / Pow2(k));
    }
  }

  lemma ExactQuotient(v: int, m: int)
    requires m > 0 && v % m == 0
    ensures v == m * (v / m)
  {
  }

  lemma MulMod(m: int, q: int)
    requires m > 0
    ensures (m * q) % m == 0
  {
    DivModUnique(m * q, m, q, 0);
  }

  lemma AtLeastOneMultiple(m: int, e: int)
    requires m > 0
    ensures e >= 1 ==> m * e >= m
    ensures e <= -1 ==> m * e <= -m
  {
  }

  lemma {:induction false} Pow2Add(j: nat, k: nat)
    ensures Pow2(j + k) == Pow2(j) * Pow2(k)
  {
    if j > 0 {
      Pow2Add(j - 1, k);
    }
  }

  lemma Pow2Values()
    ensures Pow2(28) == 0x1000_0000
    ensures Pow2(32) == 0x1_0000_0000
    ensures Pow2(36) == 0x10_0000_0000
    ensures Pow2(60) == 0x1000_0000_0000_0000
    ensures Pow2(64) == 0x1_0000_0000_0000_0000
  {
    assert Pow2(4) == 16;
    Pow2Add(4, 4);
    Pow2Add(8, 8);
    Pow2Add(16, 8);
    Pow2Add(24, 4);
    Pow2Add(28, 4);
    Pow2Add(32, 4);
    Pow2Add(32, 28);
    Pow2Add(32, 32);
  }

  // ---------- the orbit over unbounded integers ----------

  /** The iterates of x -> a*x + c without any wrap-around. */
  function Orbit(a: int, c: int, n: nat, x: int): int {
    if n == 0 then x else a * Orbit(a, c, n - 1, x) + c
  }

  /** The geometric sum 1 + a + ... + a^(n-1). */
  function Geo(a: int, n: nat): int {
    if n == 0 then 0 else a * Geo(a, n - 1) + 1
  }

  function Power(a: int, n: nat): int {
    if n == 0 then 1 else a * Power(a, n - 1)
  }

  lemma {:induction false} OrbitAdd(a: int, c: int, m: nat, n: nat, x: int)
    ensures Orbit(a, c, m + n, x) == Orbit(a, c, m, Orbit(a, c, n, x))
  {
    if m > 0 {
      OrbitAdd(a, c, m - 1, n, x);
    }
  }

  /** How far the first step moves x. */
  function FirstMove(a: int, c: int, x: int): int {
    (a - 1) * x + c
  }

  lemma DistanceStep(a: int, c: int, x: int, s: int, t: int, o: int)
    requires t == (a - 1) * x + c && o == x + s * t
    ensures a * o + c - x == (a * s + 1) * t
  {
  }

  /** How far n steps move x: the geometric sum times the first move. */
  lemma {:induction false} OrbitDistance(a: int, c: int, n: nat, x: int)
    ensures Orbit(a, c, n, x) - x == Geo(a, n) * FirstMove(a, c, x)
  {
    if n > 0 {
      OrbitDistance(a, c, n - 1, x);
      DistanceStep(a, c, x, Geo(a, n - 1), FirstMove(a, c, x), Orbit(a, c, n - 1, x));
    }
  }

  lemma GeoStep(a: int, n: nat)
    ensures Geo(a, 0) == 0
    ensures n > 0 ==> Geo(a, n) == a * Geo(a, n - 1) + 1
  {
  }

  lemma PowerStep(a: int, n: nat)
    ensures Power(a, 0) == 1
    ensures n > 0 ==> Power(a, n) == a * Power(a, n - 1)
  {
  }

  lemma {:induction false} GeoAdd(a: int, m: nat, n: nat)
    ensures Geo(a, m + n) == Power(a, m) * Geo(a, n) + Geo(a, m)
  {
    hide Geo, Power;
    PowerStep(a, m);
    GeoStep(a, m);
    GeoStep(a, m + n);
    if m > 0 {
      GeoAdd(a, m - 1, n);
      Distribute(a, Power(a, m - 1), Geo(a, n), Geo(a, m - 1), Geo(a, m - 1 + n), Power(a, m), Geo(a, m));
    }
  }

  lemma Distribute(a: int, p: int, g: int, h: int, s: int, p': int, h': int)
    requires s == p * g + h && p' == a * p && h' == a * h + 1
    ensures a * s + 1 == p' * g + h'
  {
  }

  lemma {:induction false} PowerMod4(a: int, n: nat) returns (b: int)
    requires a % 4 == 1
    ensures Power(a, n) == 4 * b + 1
  {
    if n == 0 {
      b := 0;
    } else {
      var b' := PowerMod4(a, n - 1);
      var e := a / 4;
      b := 4 * (e * b') + e + b';
      ProductMod4(e, b', a, Power(a, n - 1));
    }
  }

  lemma ProductMod4(e: int, b: int, a: int, p: int)
    requires a == 4 * e + 1 && p == 4 * b + 1
    ensures a * p == 4 * (4 * (e * b) + e + b) + 1
  {
  }

  lemma {:induction false} GeoParity(a: int, n: nat)
    requires a % 4 == 1
    ensures Geo(a, n) % 2 == n % 2
  {
    hide Geo;
    GeoStep(a, n);
    if n > 0 {
      GeoParity(a, n - 1);
      ParityStep(a, Geo(a, n - 1), Geo(a, n), n - 1);
    }
  }

  lemma ParityStep(a: int, g: int, next: int, n: nat)
    requires a % 4 == 1 && next == a * g + 1 && g % 2 == n % 2
    ensures next % 2 == (n + 1) % 2
  {
    var p := a / 4 * g;
    assert next == 4 * p + g + 1 by {
      assert a * g == 4 * p + g;
    }
    ParityOf(next, g, p, n);
  }

  lemma ParityOf(next: int, g: int, p: int, n: nat)
    requires next == 4 * p + g + 1 && g % 2 == n % 2
    ensures next % 2 == (n + 1) % 2
  {
    var h, m := g / 2, n / 2;
    if n % 2 == 0 {
      Parity(next, 2 * p + h, 1);
      Parity(n + 1, m, 1);
    } else {
      Parity(next, 2 * p + h + 1, 0);
      Parity(n + 1, m + 1, 0);
    }
  }

  lemma Parity(v: int, h: int, b: int)
    requires v == 2 * h + b && 0 <= b < 2
    ensures v % 2 == b
  {
  }

  /** The sum of 2m terms is twice an odd multiple of the sum of m terms, because a^m + 1 is 2 modulo 4. */
  lemma GeoDoubled(a: int, m: nat) returns (odd: int)
    requires a % 4 == 1
    ensures odd % 2 == 1
    ensures Geo(a, m + m) == 2 * (odd * Geo(a, m))
  {
    hide *;
    GeoAdd(a, m, m);
    var b := PowerMod4(a, m);
    odd := 2 * b + 1;
    TwiceProduct(Power(a, m), odd, Geo(a, m));
  }

  lemma TwiceProduct(p: int, odd: int, g: int)
    requires p + 1 == 2 * odd
    ensures p * g + g == 2 * (odd * g)
  {
  }

  lemma Div2Doubled(k: nat, odd: int, g: int, sum: int, m: int)
    requires odd % 2 == 1 && sum == 2 * (odd * g)
    requires Div2(k, g) <==> Div2(k, m)
    ensures Div2(k + 1, sum) <==> Div2(k + 1, 2 * m)
  {
    Div2OddFactor(k, odd, g);
  }

  /** The geometric sum of n terms has exactly as many factors of two as n. */
  lemma {:induction false} GeoDiv2(a: int, k: nat, n: nat)
    requires a % 4 == 1
    ensures Div2(k, Geo(a, n)) <==> Div2(k, n)
  {
    hide Geo;
    GeoParity(a, n);
    if k > 0 && n % 2 == 0 {
      var m := n / 2;
      assert n == m + m;
      var odd := GeoDoubled(a, m);
      GeoDiv2(a, k - 1, m);
      Div2Doubled(k - 1, odd, Geo(a, m), Geo(a, n), m);
    }
  }

  /** The first move of an odd-increment orbit is odd. */
  lemma FirstMoveOdd(a: int, c: int, x: int, h: int)
    requires a == 2 * h + 1 && c % 2 == 1
    ensures FirstMove(a, c, x) % 2 == 1
  {
    var u := h * x;
    assert FirstMove(a, c, x) == 2 * u + c;
    OddSum(u, c, FirstMove(a, c, x));
  }

  lemma OddSum(u: int, c: int, sum: int)
    requires c % 2 == 1 && sum == 2 * u + c
    ensures sum % 2 == 1
  {
  }

  lemma OddTimes(k: nat, d: int, s: int, odd: int)
    requires odd % 2 == 1 && d == s * odd
    ensures Div2(k, d) <==> Div2(k, s)
  {
    assert d == odd * s;
    Div2OddFactor(k, odd, s);
  }

  lemma OrbitDiv2(a: int, c: int, k: nat, n: nat, x: int)
    requires FirstMove(a, c, x) % 2 == 1
    ensures Div2(k, Orbit(a, c, n, x) - x) <==> Div2(k, Geo(a, n))
  {
    hide *;
    OrbitDistance(a, c, n, x);
    OddTimes(k, Orbit(a, c, n, x) - x, Geo(a, n), FirstMove(a, c, x));
  }

  /** Modulo 2^k, n steps return to the start exactly when 2^k divides n. */
  lemma OrbitReturns(a: int, c: int, k: nat, n: nat, x: int)
    requires a % 4 == 1 && c % 2 == 1
    ensures Div2(k, Orbit(a, c, n, x) - x) <==> Div2(k, n)
  {
    hide *;
    GeoDiv2(a, k, n);
    FirstMoveOdd(a, c, x, 2 * (a / 4));
    OrbitDiv2(a, c, k, n, x);
  }

  /** Modulo 2^k the orbit reaches every target within 2^k steps: the step count is built bit by bit. */
  lemma {:induction false} OrbitReaches(a: int, c: int, k: nat, x: int, y: int) returns (n: nat)
    requires a % 4 == 1 && c % 2 == 1
    ensures n < Pow2(k) && Div2(k, Orbit(a, c, n, x) - y)
  {
    hide Orbit;
    if k == 0 {
      n := 0;
    } else {
      n := OrbitReaches(a, c, k - 1, x, y);
      var here := Orbit(a, c, n, x);
      if !Div2(k, here - y) {
        var jump := Pow2(k - 1);
        OrbitAdd(a, c, jump, n, x);
        OrbitReturns(a, c, k - 1, jump, here);
        OrbitReturns(a, c, k, jump, here);
        Pow2Exact(k - 1);
        var there := Orbit(a, c, jump, here);
        Div2TwoExact(k - 1, there - here, here - y);
        n := jump + n;
      }
    }
  }

  lemma {:induction false} Pow2Exact(k: nat)
    ensures Div2(k, Pow2(k)) && !Div2(k + 1, Pow2(k))
  {
    hide Div2;
    if k > 0 {
      Pow2Exact(k - 1);
      Div2Even(k, Pow2(k), Pow2(k - 1));
      Div2Even(k + 1, Pow2(k), Pow2(k - 1));
    } else {
      Div2Odd(1, 1, 0);
      Div2Zero(1);
    }
  }

  // ---------- back to 64-bit words ----------

  lemma Div2At64(v: int)
    ensures Div2(64, v) <==> v % TWO_64 == 0
  {
    Div2Mod(64, v);
    Pow2Values();
  }

  lemma StepCongruent(o: int, i: int64)
    requires Div2(64, o - i)
    ensures Div2(64, RAND_A * o + RAND_C - Step(i))
  {
    Div2Factor(64, RAND_A, o - i);
    var w := (i * RAND_A + RAND_C) - Step(i);
    WrapCongruent(i * RAND_A + RAND_C);
    Div2Sum(64, RAND_A * (o - i), w);
    assert RAND_A * (o - i) + w == RAND_A * o + RAND_C - Step(i);
  }

  lemma WrapCongruent(v: int)
    ensures Div2(64, v - ToInt64(v))
  {
    Div2At64(v - ToInt64(v));
  }

  /** The wrapped iterate and the unbounded orbit agree modulo 2^64. */
  lemma {:induction false} IterateIsOrbit(n: nat, r: int64)
    ensures Div2(64, Orbit(RAND_A, RAND_C, n, r) - Iterate(n, r))
  {
    if n == 0 {
      Div2At64(0);
    } else {
      IterateIsOrbit(n - 1, r);
      StepCongruent(Orbit(RAND_A, RAND_C, n - 1, r), Iterate(n - 1, r));
    }
  }

  lemma {:induction false} IterateAdd(m: nat, n: nat, r: int64)
    ensures Iterate(m + n, r) == Iterate(m, Iterate(n, r))
  {
    if m > 0 {
      IterateAdd(m - 1, n, r);
    }
  }

  /** Modulo any 2^k up to 2^64, the state returns exactly after the multiples of 2^k. */
  lemma IterateReturns(k: nat, n: nat, r: int64)
    requires k <= 64
    ensures Div2(k, Iterate(n, r) - r) <==> Div2(k, n)
  {
    hide Iterate, Orbit, Div2;
    IterateIsOrbit(n, r);
    OrbitReturns(RAND_A, RAND_C, k, n, r);
    var o, i := Orbit(RAND_A, RAND_C, n, r), Iterate(n, r);
    Div2Weaken(k, 64, o - i);
    Div2Sum(k, o - i, i - r);
  }

  /** Full period: the state repeats after n calls exactly when 2^64 divides n. */
  lemma FullPeriod(n: nat, seed: int64)
    ensures Iterate(n, seed) == seed <==> n % TWO_64 == 0
  {
    hide Iterate, Div2;
    IterateReturns(64, n, seed);
    Div2At64(Iterate(n, seed) - seed);
    Div2At64(n);
  }

  /** No state repeats within 2^64 calls: two call counts give one state only a multiple of 2^64 apart. */
  lemma NoEarlyRepeat(i: nat, j: nat, seed: int64)
    requires i <= j
    ensures Iterate(i, seed) == Iterate(j, seed) <==> (j - i) % TWO_64 == 0
  {
    hide Iterate;
    IterateAdd(j - i, i, seed);
    FullPeriod(j - i, Iterate(i, seed));
  }

  /** Every 64-bit state is reached from every seed within 2^64 calls. */
  lemma EveryStateVisited(seed: int64, target: int64) returns (n: nat)
    ensures n < TWO_64 && Iterate(n, seed) == target
  {
    hide Iterate, Orbit, Div2;
    n := OrbitReaches(RAND_A, RAND_C, 64, seed, target);
    Pow2Values();
    IterateIsOrbit(n, seed);
    var o, i := Orbit(RAND_A, RAND_C, n, seed), Iterate(n, seed);
    Div2Negate(64, o - i);
    Div2Sum(64, i - o, o - target);
    Div2At64(i - target);
  }

  // ---------- the emitted bits ----------

  /** The bits lo..hi-1 of u and v agree. */
  predicate SameBits(lo: nat, hi: nat, u: int, v: int)
    requires lo <= hi
  {
    if lo == 0 then Div2(hi, u - v) else SameBits(lo - 1, hi - 1, u / 2, v / 2)
  }

  lemma {:induction false} CongruentSameBits(lo: nat, hi: nat, u: int, v: int)
    requires lo <= hi && Div2(hi, u - v)
    ensures SameBits(lo, hi, u, v)
  {
    if lo > 0 {
      assert (u - v) / 2 == u / 2 - v / 2;
      CongruentSameBits(lo - 1, hi - 1, u / 2, v / 2);
    }
  }

  /** Numbers that differ by an odd multiple of 2^(hi-1) differ in bit hi-1. */
  lemma {:induction false} TopBitDiffers(lo: nat, hi: nat, u: int, v: int)
    requires lo < hi && Div2(hi - 1, u - v) && !Div2(hi, u - v)
    ensures !SameBits(lo, hi, u, v)
  {
    if lo > 0 {
      assert (u - v) / 2 == u / 2 - v / 2;
      TopBitDiffers(lo - 1, hi - 1, u / 2, v / 2);
    }
  }

  /** The index of the lowest set bit of p, when it is below k. */
  lemma {:induction false} LowestBit(k: nat, p: int) returns (j: nat)
    requires !Div2(k, p)
    ensures j < k && Div2(j, p) && !Div2(j + 1, p)
  {
    if p % 2 == 1 {
      j := 0;
    } else {
      j := LowestBit(k - 1, p / 2);
      j := j + 1;
    }
  }

  /** Scaling up to exactly k factors of two. */
  lemma {:induction false} ScaleExact(j: nat, i: nat, p: int)
    requires Div2(j, p) && !Div2(j + 1, p)
    ensures Div2(j + i, Pow2(i) * p) && !Div2(j + i + 1, Pow2(i) * p)
  {
    if i == 0 {
      assert Pow2(0) * p == p;
    } else {
      assert Pow2(i) * p == 2 * (Pow2(i - 1) * p);
      ScaleExact(j, i - 1, p);
    }
  }

  /** p is a period of the bits lo..hi-1 of the states. */
  ghost predicate WindowPeriod(lo: nat, hi: nat, p: nat, r: int64)
    requires lo <= hi
  {
    forall n: nat :: SameBits(lo, hi, Iterate(n + p, r), Iterate(n, r))
  }

  lemma {:induction false} SameBitsTransitive(lo: nat, hi: nat, u: int, v: int, w: int)
    requires lo <= hi && SameBits(lo, hi, u, v) && SameBits(lo, hi, v, w)
    ensures SameBits(lo, hi, u, w)
  {
    if lo == 0 {
      Div2Negate(hi, u - v);
      Div2Sum(hi, u - v, v - w);
    } else {
      SameBitsTransitive(lo - 1, hi - 1, u / 2, v / 2, w / 2);
    }
  }

  lemma {:induction false} PeriodMultiples(lo: nat, hi: nat, p: nat, m: nat, r: int64)
    requires lo <= hi && WindowPeriod(lo, hi, p, r)
    ensures SameBits(lo, hi, Iterate(m * p, r), r)
  {
    if m == 0 {
      Div2Multiple(hi, 0);
      CongruentSameBits(lo, hi, r, r);
    } else {
      PeriodMultiples(lo, hi, p, m - 1, r);
      var n: nat := (m - 1) * p;
      assert m * p == n + p;
      SameBitsTransitive(lo, hi, Iterate(n + p, r), Iterate(n, r), r);
    }
  }

  lemma MultiplesArePeriods(lo: nat, hi: nat, p: nat, r: int64)
    requires lo < hi <= 64 && Div2(hi, p)
    ensures WindowPeriod(lo, hi, p, r)
  {
    hide Div2, Pow2, SameBits, Iterate;
    forall n: nat ensures SameBits(lo, hi, Iterate(n + p, r), Iterate(n, r)) {
      IterateAdd(p, n, r);
      IterateReturns(hi, p, Iterate(n, r));
      CongruentSameBits(lo, hi, Iterate(n + p, r), Iterate(n, r));
    }
  }

  /** Scaled to an odd multiple of 2^(hi-1), another period would have to leave bit hi-1 alone, and does not. */
  lemma OthersAreNot(lo: nat, hi: nat, p: nat, r: int64)
    requires lo < hi <= 64 && !Div2(hi, p)
    ensures !WindowPeriod(lo, hi, p, r)
  {
    hide Div2, Pow2, SameBits, Iterate, WindowPeriod;
    var j := LowestBit(hi, p);
    var m := Pow2(hi - 1 - j);
    ScaleExact(j, hi - 1 - j, p);
    IterateReturns(hi - 1, m * p, r);
    IterateReturns(hi, m * p, r);
    TopBitDiffers(lo, hi, Iterate(m * p, r), r);
    if WindowPeriod(lo, hi, p, r) {
      PeriodMultiples(lo, hi, p, m, r);
    }
  }

  /** The periods of the bits lo..hi-1 are exactly the multiples of 2^hi: the low bits set no shorter rhythm. */
  lemma WindowPeriodExact(lo: nat, hi: nat, p: nat, r: int64)
    requires lo < hi <= 64
    ensures WindowPeriod(lo, hi, p, r) <==> Div2(hi, p)
  {
    hide WindowPeriod, Div2;
    if Div2(hi, p) {
      MultiplesArePeriods(lo, hi, p, r);
    } else {
      OthersAreNot(lo, hi, p, r);
    }
  }

  lemma {:induction false} SameBitsShift(lo: nat, hi: nat, u: int, v: int)
    requires lo <= hi
    ensures SameBits(lo, hi, u, v) <==> Div2(hi - lo, u / Pow2(lo) - v / Pow2(lo))
  {
    if lo > 0 {
      SameBitsShift(lo - 1, hi - 1, u / 2, v / 2);
      HalveThenDivide(u, Pow2(lo - 1));
      HalveThenDivide(v, Pow2(lo - 1));
    }
  }

  lemma HalveThenDivide(u: int, m: int)
    requires m > 0
    ensures (u / 2) / m == u / (2 * m)
  {
    var q := (u / 2) / m;
    var s := u - (2 * m) * q;
    assert 0 <= s < 2 * m;
    AtLeastOneMultiple(2 * m, u / (2 * m) - q);
    assert (2 * m) * (u / (2 * m) - q) == s - u % (2 * m);
  }

  lemma SameResidue32(i: int, j: int)
    ensures ToInt32(i) == ToInt32(j) <==> (i - j) % TWO_32 == 0
  {
  }

  lemma LowByteOfWord(i: int)
    ensures ToInt8(ToInt32(i)) == ToInt8(i)
  {
    WrapIsShift(i);
    ByteShift(i, -0x100_0000 * ((i + TWO_31) / TWO_32));
  }

  lemma ByteShift(v: int, q: int)
    ensures ToInt8(v + 0x100 * q) == ToInt8(v)
  {
  }

  lemma SameResidue8(i: int, j: int)
    ensures ToInt8(ToInt32(i)) == ToInt8(ToInt32(j)) <==> (i - j) % TWO_8 == 0
  {
    LowByteOfWord(i);
    LowByteOfWord(j);
    SameByte(i, j);
  }

  lemma SameByte(i: int, j: int)
    ensures ToInt8(i) == ToInt8(j) <==> (i - j) % 0x100 == 0
  {
    ByteShift(j, (i - j) / 0x100);
  }

  lemma EmitIsWindow(u: int64, v: int64)
    ensures Emit(u) == Emit(v) <==> SameBits(28, 60, u, v)
    ensures ToInt8(Emit(u)) == ToInt8(Emit(v)) <==> SameBits(28, 36, u, v)
  {
    hide Pow2, SameBits, Div2, ToInt32, ToInt8;
    Pow2Values();
    SameBitsShift(28, 60, u, v);
    SameBitsShift(28, 36, u, v);
    WindowWord(u / 0x1000_0000, v / 0x1000_0000);
  }

  lemma WindowWord(i: int, j: int)
    ensures ToInt32(i) == ToInt32(j) <==> Div2(32, i - j)
    ensures ToInt8(ToInt32(i)) == ToInt8(ToInt32(j)) <==> Div2(8, i - j)
  {
    hide Div2, ToInt32, ToInt8;
    Pow2Values();
    assert Pow2(8) == 0x100;
    Div2Mod(32, i - j);
    Div2Mod(8, i - j);
    SameResidue32(i, j);
    SameResidue8(i, j);
  }

  /** The emitted 32-bit values repeat with period exactly 2^60. */
  lemma OutputPeriod(p: nat, seed: int64)
    ensures (forall n: nat :: Output(n + p, seed) == Output(n, seed)) <==> p % 0x1000_0000_0000_0000 == 0
  {
    var r := Iterate(1, seed);
    forall n: nat ensures Output(n, seed) == Emit(Iterate(n, r)) {
      IterateAdd(n, 1, seed);
    }
    forall m: nat, n: nat
      ensures Emit(Iterate(m, r)) == Emit(Iterate(n, r)) <==> SameBits(28, 60, Iterate(m, r), Iterate(n, r))
    {
      EmitIsWindow(Iterate(m, r), Iterate(n, r));
    }
    WindowPeriodExact(28, 60, p, r);
    Div2Mod(60, p);
    Pow2Values();
  }

  /** The random tensor bytes repeat with period exactly 2^36. */
  lemma BytePeriod(p: nat, seed: int64)
    ensures (forall n: nat :: ToInt8(Output(n + p, seed)) == ToInt8(Output(n, seed))) <==> p % 0x10_0000_0000 == 0
  {
    var r := Iterate(1, seed);
    forall n: nat ensures Output(n, seed) == Emit(Iterate(n, r)) {
      IterateAdd(n, 1, seed);
    }
    forall m: nat, n: nat
      ensures ToInt8(Emit(Iterate(m, r))) == ToInt8(Emit(Iterate(n, r))) <==>
        SameBits(28, 36, Iterate(m, r), Iterate(n, r))
    {
      EmitIsWindow(Iterate(m, r), Iterate(n, r));
    }
    WindowPeriodExact(28, 36, p, r);
    Div2Mod(36, p);
    Pow2Values();
  }

  // ---------- bit by bit ----------

  /** Bit i of the two's complement form, of any width. */
  function Bit(v: int, i: nat): int
    decreases i
  {
    if i == 0 then v % 2 else Bit(v / 2, i - 1)
  }

  lemma {:induction false} BitsOfShift(v: int, k: nat, i: nat)
    ensures Bit(v, k + i) == Bit(v / Pow2(k), i)
    decreases k
  {
    if k > 0 {
      BitsOfShift(v / 2, k - 1, i);
      HalveThenDivide(v, Pow2(k - 1));
      assert Pow2(k) == 2 * Pow2(k - 1);
      assert Bit(v, k + i) == Bit(v / 2, k - 1 + i);
      hide Bit, Pow2;
    }
  }

  /** The bits lo..hi-1 agree one by one. */
  ghost predicate BitsAgree(lo: nat, hi: nat, u: int, v: int) {
    forall i :: lo <= i < hi ==> Bit(u, i) == Bit(v, i)
  }

  lemma HalvesAgree(lo: nat, hi: nat, u: int, v: int)
    requires 0 < lo <= hi
    ensures BitsAgree(lo, hi, u, v) <==> BitsAgree(lo - 1, hi - 1, u / 2, v / 2)
  {
    if BitsAgree(lo, hi, u, v) {
      forall i | lo - 1 <= i < hi - 1 ensures Bit(u / 2, i) == Bit(v / 2, i) {
        assert Bit(u, i + 1) == Bit(v, i + 1);
      }
    }
    if BitsAgree(lo - 1, hi - 1, u / 2, v / 2) {
      forall i | lo <= i < hi ensures Bit(u, i) == Bit(v, i) {
        assert Bit(u / 2, i - 1) == Bit(v / 2, i - 1);
      }
    }
  }

  lemma LowestAgrees(hi: nat, u: int, v: int)
    requires 0 < hi
    ensures BitsAgree(0, hi, u, v) <==> u % 2 == v % 2 && BitsAgree(1, hi, u, v)
  {
    assert Bit(u, 0) == u % 2 && Bit(v, 0) == v % 2;
    hide Bit;
  }

  /** 2^k divides the difference of two numbers exactly when their low k bits agree. */
  lemma {:induction false} LowBitsAgree(k: nat, u: int, v: int)
    ensures Div2(k, u - v) <==> BitsAgree(0, k, u, v)
  {
    if k > 0 {
      LowBitsAgree(k - 1, u / 2, v / 2);
      LowestAgrees(k, u, v);
      HalvesAgree(1, k, u, v);
      hide BitsAgree;
      if u % 2 == v % 2 {
        assert (u - v) / 2 == u / 2 - v / 2;
      }
    }
  }

  /** What a window comparison means, bit by bit. */
  lemma {:induction false} SameBitsIff(lo: nat, hi: nat, u: int, v: int)
    requires lo <= hi
    ensures SameBits(lo, hi, u, v) <==> BitsAgree(lo, hi, u, v)
  {
    hide BitsAgree;
    if lo == 0 {
      LowBitsAgree(hi, u, v);
    } else {
      SameBitsIff(lo - 1, hi - 1, u / 2, v / 2);
      HalvesAgree(lo, hi, u, v);
    }
  }

  lemma CutKeepsResidue(v: int)
    ensures (ToInt32(v) - v) % TWO_32 == 0
  {
  }

  /** The cut to 32 bits keeps those bits. */
  lemma CutKeepsBits(v: int, i: nat)
    requires i < 32
    ensures Bit(ToInt32(v), i) == Bit(v, i)
  {
    CutKeepsResidue(v);
    hide ToInt32, Bit, Div2, Pow2;
    Pow2Values();
    Div2Mod(32, ToInt32(v) - v);
    LowBitsAgree(32, ToInt32(v), v);
  }

  /** Bit i of what a call returns is bit 28 + i of its state. */
  lemma OutputBits(r: int64, i: nat)
    requires i < 32
    ensures Bit(Emit(r), i) == Bit(r, 28 + i)
  {
    hide ToInt32, Bit, Div2, Pow2;
    Pow2Values();
    BitsOfShift(r, 28, i);
    CutKeepsBits(r / 0x1000_0000, i);
  }
}
