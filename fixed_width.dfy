/** The C integer types and conversions the heat map's arithmetic relies on.
    Dafny integers are unbounded, so every truncation the C code performs by
    storing into a narrower type is written out here. */
module FixedWidth {

  type u8 = x: int | 0 <= x < 0x100
  type u16 = x: int | 0 <= x < 0x1_0000
  type u32 = x: int | 0 <= x < 0x1_0000_0000

  const TWO_16: int := 0x1_0000
  const TWO_32: int := 0x1_0000_0000

  /** Storing an int into an `int16_t`: two's complement wrap-around, which
      is what the compilers targeted by the firmware do for this
      implementation-defined conversion. */
  function ToInt16(x: int): (r: int)
    ensures -0x8000 <= r < 0x8000
    ensures (r - x) % TWO_16 == 0
    ensures -0x8000 <= x < 0x8000 ==> r == x
  {
    (x + 0x8000) % TWO_16 - 0x8000
  }

  /** Storing an int into a `uint16_t`: reduction modulo 2^16. */
  function ToUint16(x: int): (r: u16)
    ensures (r - x) % TWO_16 == 0
    ensures 0 <= x < TWO_16 ==> r == x
    ensures -TWO_16 <= x < 0 ==> r == x + TWO_16
  {
    x % TWO_16
  }

  /** The `uint32_t` post-increment `c++`, which wraps to 0 after 2^32 - 1. */
  function Inc32(c: u32): (r: u32)
    ensures c < TWO_32 - 1 ==> r == c + 1
    ensures c == TWO_32 - 1 ==> r == 0
  {
    (c + 1) % TWO_32
  }

  /** Division that truncates toward zero, as C's `/` and the cast of a
      float to an integer do (Dafny's own `/` is Euclidean). */
  function TruncDiv(a: int, b: int): (q: int)
    requires b > 0
    ensures 0 <= a ==> 0 <= q && q * b <= a < q * b + b
    ensures a < 0 ==> q <= 0 && a <= q * b < a + b
  {
    if a >= 0 then a / b else -((-a) / b)
  }

  /** Cancelling a positive factor on both sides of an inequality. */
  lemma MulLeCancel(x: int, y: int, m: int)
    requires m > 0 && x * m <= y * m
    ensures x <= y
  {
  }

  /** A product with a factor between 0 and m is bounded by the product with m. */
  lemma MulMonotone(d: int, c: int, m: int)
    requires 0 <= c <= m
    ensures 0 <= d ==> 0 <= d * c <= d * m
    ensures d < 0 ==> d * m <= d * c <= 0
  {
    assert d * m - d * c == d * (m - c);
  }

  /** Truncating division of d * c by m, for 0 <= c <= m, stays between 0 and
      d, and is exact at both ends. */
  lemma TruncDivScaled(d: int, c: int, m: int)
    requires 0 <= c <= m && m > 0
    ensures 0 <= d ==> 0 <= TruncDiv(d * c, m) <= d
    ensures d < 0 ==> d <= TruncDiv(d * c, m) <= 0
    ensures c == 0 ==> TruncDiv(d * c, m) == 0
    ensures c == m ==> TruncDiv(d * c, m) == d
  {
    var q := TruncDiv(d * c, m);
    MulMonotone(d, c, m);
    if 0 <= d {
      MulLeCancel(q, d, m);
      if c == m && q < d {
        MulMonotoneLeft(q + 1, d, m);
      }
    } else {
      MulLeCancel(d, q, m);
      if c == m && q > d {
        MulMonotoneLeft(d + 1, q, m);
      }
    }
  }

  /** Truncating division by a fixed positive divisor is monotone. */
  lemma TruncDivMonotone(a1: int, a2: int, m: int)
    requires m > 0 && a1 <= a2
    ensures TruncDiv(a1, m) <= TruncDiv(a2, m)
  {
    var q1, q2 := TruncDiv(a1, m), TruncDiv(a2, m);
    if q1 > q2 {
      MulMonotoneLeft(q2 + 1, q1, m);
    }
  }

  /** Multiplying both sides of an inequality by a positive factor. */
  lemma MulMonotoneLeft(x: int, y: int, m: int)
    requires m > 0 && x <= y
    ensures x * m <= y * m
    ensures x * m + m == (x + 1) * m
  {
    assert y * m - x * m == (y - x) * m;
  }
}
