/** Fixed-width integers: the wrap-around conversions of C and Verilog, on unbounded integers. */
module Words {
  const TWO_8: int := 0x100
  const TWO_16: int := 0x1_0000
  const TWO_31: int := 0x8000_0000
  const TWO_32: int := 0x1_0000_0000
  const TWO_64: int := 0x1_0000_0000_0000_0000

  type int8 = x: int | -0x80 <= x < 0x80
  type uint8 = x: int | 0 <= x < 0x100
  type int32 = x: int | -0x8000_0000 <= x < 0x8000_0000
  type uint32 = x: int | 0 <= x < 0x1_0000_0000
  type int64 = x: int | -0x8000_0000_0000_0000 <= x < 0x8000_0000_0000_0000

  /** The value of the low 8 bits of `v`, read as a signed byte. */
  function ToInt8(v: int): int8 { (v + 0x80) % TWO_8 - 0x80 }

  /** The value of the low 9 bits of `v`, read as a signed number. */
  function ToInt9(v: int): int { (v + 0x100) % 0x200 - 0x100 }

  function ToInt16(v: int): int { (v + 0x8000) % TWO_16 - 0x8000 }

  function ToInt32(v: int): int32 { (v + TWO_31) % TWO_32 - TWO_31 }

  function ToUint32(v: int): uint32 { v % TWO_32 }

  function ToInt64(v: int): int64 { (v + 0x8000_0000_0000_0000) % TWO_64 - 0x8000_0000_0000_0000 }

  function Abs(v: int): nat { if v < 0 then -v else v }

  /** A multiple of 2^32 is invisible after wrapping. */
  lemma WrapShift(v: int, q: int)
    ensures ToInt32(v + TWO_32 * q) == ToInt32(v)
  {
  }

  /** Adding to a wrapped sum is the same as wrapping the whole sum once. */
  lemma WrapAbsorbs(a: int, b: int)
    ensures ToInt32(ToInt32(a) + b) == ToInt32(a + b)
    ensures ToInt32(a + ToInt32(b)) == ToInt32(a + b)
  {
    WrapIsShift(a);
    WrapShift(a + b, -((a + TWO_31) / TWO_32));
    WrapIsShift(b);
    WrapShift(a + b, -((b + TWO_31) / TWO_32));
  }

  lemma WrapIsShift(v: int)
    ensures ToInt32(v) == v - TWO_32 * ((v + TWO_31) / TWO_32)
  {
  }

  /** Multiplying by a non-negative number keeps the order. */
  lemma MulMono(m: int, a: int, b: int)
    requires m >= 0
    ensures a <= b ==> a * m <= b * m
  {
  }

  /** Row q of n rows of length m lies inside their concatenation. */
  lemma RowInside(m: int, q: int, n: int)
    requires m >= 0 && 0 <= q < n
    ensures 0 <= q * m && q * m + m <= n * m
  {
    MulMono(m, 0, q);
    MulMono(m, q + 1, n);
  }

  /** Quotient and remainder are the only ones. */
  lemma DivModUnique(v: int, m: int, q: int, r: int)
    requires 0 <= r < m && v == q * m + r
    ensures v / m == q && v % m == r
  {
    var q' := v / m;
    assert v == q' * m + v % m;
    MulMono(m, q + 1, q');
    MulMono(m, q' + 1, q);
  }
}
