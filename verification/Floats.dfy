/** Quotients of integers in double precision. */
module Floats {
  import opened Words

  const TWO_53: int := 0x20_0000_0000_0000

  function ToReal(k: int): real { k as real }

  /** Rounding to double precision, as far as it matters: exact on integers up to 2^53, and off by no more than one part
      in 2^53 on numbers of ordinary size. */
  ghost predicate IsRounding(round: real -> real) {
    && (forall k :: 0 <= k <= TWO_53 ==> round(ToReal(k)) == ToReal(k))
    && (forall v :: Ordinary(v) ==> Near(round(v), v))
  }

  predicate Ordinary(v: real) {
    v <= ToReal(TWO_53) && v * ToReal(TWO_53) >= 1.0
  }

  predicate Near(f: real, v: real) {
    -v <= (f - v) * ToReal(TWO_53) <= v
  }

  function Ratio(x: real, m: nat): real
    requires m > 0
  {
    x / ToReal(m)
  }

  function Ceiling(v: real): int { -(-v).Floor }

  lemma ExactProduct(round: real -> real, x: nat, y: nat)
    requires IsRounding(round) && x * y < TWO_53
    ensures round(ToReal(x) * ToReal(y)) == ToReal(x * y)
  {
    RealProduct(x, y);
    ExactInteger(round, x * y);
  }

  lemma RealProduct(x: nat, y: nat)
    ensures ToReal(x) * ToReal(y) == ToReal(x * y)
  {
  }

  lemma ExactInteger(round: real -> real, k: int)
    requires IsRounding(round) && 0 <= k <= TWO_53
    ensures round(ToReal(k)) == ToReal(k)
  {
  }

  lemma NearQuotient(round: real -> real, v: real)
    requires IsRounding(round) && Ordinary(v)
    ensures Near(round(v), v)
  {
  }

  /** The rounded quotient of integers below 2^53 has the floor and the ceiling of the exact one. */
  lemma RoundedQuotient(round: real -> real, x: nat, m: nat)
    requires IsRounding(round) && 0 < m <= TWO_53 && x < TWO_53
    ensures 0 <= round(Ratio(ToReal(x), m)).Floor == x / m && Ceiling(round(Ratio(ToReal(x), m))) == (x + m - 1) / m
  {
    hide IsRounding, Ratio, ToReal;
    var q, r := Divided(x, m);
    if r == 0 {
      RoundedOnto(round, x, m, q);
    } else {
      RoundedBetween(round, x, m, q, r);
    }
    FloorIs(round(Ratio(ToReal(x), m)), q, r > 0);
  }

  lemma Divided(x: nat, m: nat) returns (q: nat, r: nat)
    requires m > 0
    ensures x == q * m + r && r < m && q <= x && r <= x
    ensures x / m == q && (x + m - 1) / m == if r == 0 then q else q + 1
  {
    q, r := x / m, x % m;
    MulMono(q, 1, m);
    MulMono(m, 0, q);
    CeilingOf(x, m, q, r);
  }

  lemma CeilingOf(x: nat, m: nat, q: nat, r: nat)
    requires x == q * m + r && r < m
    ensures (x + m - 1) / m == if r == 0 then q else q + 1
  {
    if r == 0 {
      DivModUnique(x + m - 1, m, q, m - 1);
    } else {
      DivModUnique(x + m - 1, m, q + 1, r - 1);
    }
  }

  lemma FloorIs(f: real, q: int, between: bool)
    requires if between then ToReal(q) < f < ToReal(q + 1) else f == ToReal(q)
    ensures f.Floor == q && Ceiling(f) == if between then q + 1 else q
  {
  }

  lemma RoundedOnto(round: real -> real, x: nat, m: nat, q: nat)
    requires IsRounding(round) && 0 < m <= TWO_53 && q <= x < TWO_53 && x == q * m
    ensures round(Ratio(ToReal(x), m)) == ToReal(q)
  {
    RatioTimes(x, m, q, 0);
    SameQuotient(Ratio(ToReal(x), m), ToReal(q), ToReal(m));
    ExactInteger(round, q);
  }

  lemma RoundedBetween(round: real -> real, x: nat, m: nat, q: nat, r: nat)
    requires IsRounding(round) && 0 < m <= TWO_53 && 0 < r <= x < TWO_53 && x == q * m + r && r < m
    ensures ToReal(q) < round(Ratio(ToReal(x), m)) < ToReal(q + 1)
  {
    hide IsRounding, Ratio, Ordinary;
    var v, d := Ratio(ToReal(x), m), ToReal(m);
    RatioTimes(x, m, q, r);
    RatioOrdinary(x, m);
    NearQuotient(round, v);
    NotOntoIntegers(v, d, ToReal(q), ToReal(q + 1), round(v), ToReal(r), ToReal(m - r), ToReal(x));
  }

  /** Quotients of positive integers up to 2^53 are of ordinary size. */
  lemma RatioOrdinary(x: nat, m: nat)
    requires 0 < m <= TWO_53 && 0 < x <= TWO_53
    ensures Ratio(ToReal(x), m) >= 0.0 && Ordinary(Ratio(ToReal(x), m))
  {
    var v, d, t := Ratio(ToReal(x), m), ToReal(m), ToReal(TWO_53);
    assert v * d == ToReal(x) && 1.0 <= ToReal(x) <= t && 1.0 <= d <= t;
    AtMost(v, d, t, v * d);
    AtLeast(v, d, t, v * d);
  }

  lemma AtMost(v: real, d: real, t: real, p: real)
    requires d >= 1.0 && p == v * d && 1.0 <= p <= t
    ensures 0.0 <= v <= t
  {
    Positive(v, d);
    Monotone(v, 1.0, d);
  }

  lemma AtLeast(v: real, d: real, t: real, p: real)
    requires 1.0 <= d <= t && p == v * d && 1.0 <= p
    ensures v * t >= 1.0
  {
    Positive(v, d);
    Monotone(v, d, t);
  }

  /** The distances from the quotient to the integers around it, times the divisor. */
  lemma RatioTimes(x: nat, m: nat, q: nat, r: nat)
    requires m > 0 && x == q * m + r && r < m
    ensures var v, d := Ratio(ToReal(x), m), ToReal(m);
      && v * d == ToReal(x) && d > 0.0
      && (v - ToReal(q)) * d == ToReal(r) && (ToReal(q + 1) - v) * d == ToReal(m - r)
  {
    var v, d, p := Ratio(ToReal(x), m), ToReal(m), q * m;
    assert v * d == ToReal(x);
    assert ToReal(q) * d == ToReal(p) && ToReal(q + 1) * d == ToReal(p) + d;
    assert (v - ToReal(q)) * d == v * d - ToReal(q) * d;
    assert (ToReal(q + 1) - v) * d == ToReal(q + 1) * d - v * d;
  }

  lemma Monotone(t: real, u: real, v: real)
    requires t >= 0.0
    ensures u <= v ==> u * t <= v * t
  {
  }

  lemma SameQuotient(u: real, v: real, d: real)
    requires d > 0.0 && (u - v) * d == 0.0
    ensures u == v
  {
  }

  /** A quotient at least one divisor-th away from two integers is too far from both to be rounded onto one. */
  lemma NotOntoIntegers(v: real, d: real, q: real, q': real, f: real, low: real, high: real, x: real)
    requires d > 0.0 && v * d == x < ToReal(TWO_53) && Near(f, v)
    requires (v - q) * d == low && (q' - v) * d == high && low >= 1.0 && high >= 1.0
    ensures q < f < q'
  {
    var e, e', t := f - v, v - f, ToReal(TWO_53);
    Opposite(e, e', t);
    ErrorSmall(e, v, d, t, e * d);
    ErrorSmall(e', v, d, t, e' * d);
    Opposite(e, e', d);
    Beyond(v - q, e, d, low, e * d);
    Beyond(q' - v, e', d, high, e' * d);
  }

  lemma Opposite(e: real, e': real, t: real)
    requires e' == -e
    ensures e' * t == -(e * t)
  {
  }

  lemma ErrorSmall(e: real, v: real, d: real, t: real, p: real)
    requires d > 0.0 && t > 0.0 && e * t <= v && v * d < t && p == e * d
    ensures p < 1.0
  {
    Monotone(d, e * t, v);
    assert (e * t) * d == p * t;
    Monotone(t, 1.0, p);
  }

  lemma Beyond(u: real, e: real, d: real, a: real, b: real)
    requires d > 0.0 && a == u * d && b == e * d && a >= 1.0 && b > -1.0
    ensures u + e > 0.0
  {
    var w := u + e;
    assert w * d == a + b;
    Positive(w, d);
  }

  lemma Positive(w: real, d: real)
    requires d > 0.0
    ensures w * d > 0.0 ==> w > 0.0
  {
  }
}
