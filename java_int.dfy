/**
 * Java's 32-bit `int` and the two operators the client applies to it:
 * multiplication, which wraps around in two's complement, and division,
 * which rounds toward zero (sections 15.17.1 and 15.17.2 of the Java
 * Language Specification).
 */
module JavaInt {

  const TwoTo32: int := 0x1_0000_0000
  const MinInt: int := -0x8000_0000
  const MaxInt: int := 0x7fff_ffff

  /** The values of a Java `int`. */
  type Int32 = x: int | MinInt <= x <= MaxInt

  function Abs(x: int): nat { if x < 0 then -x else x }

  /** The unique `int` congruent to `x` modulo 2^32: what Java keeps of an overflowing result. */
  function Wrap(x: int): (r: Int32)
    ensures (x - r) % TwoTo32 == 0
    ensures MinInt <= x <= MaxInt ==> r == x
  {
    (x - MinInt) % TwoTo32 + MinInt
  }

  /**
   * The integer quotient of `a` by a positive `b`, rounded toward zero.
   * (Dafny's own `/` rounds toward negative infinity for a negative dividend.)
   */
  function TruncDiv(a: int, b: int): int
    requires b > 0
  {
    if a >= 0 then a / b else -((-a) / b)
  }

  /**
   * What rounding toward zero means: the remainder `a - q * b` is smaller
   * than `b` and has the sign of `a`, and the quotient is no larger than `a`.
   */
  lemma TruncDivSpec(a: int, b: int)
    requires b > 0
    ensures a >= 0 ==> 0 <= a - TruncDiv(a, b) * b < b
    ensures a < 0 ==> -b < a - TruncDiv(a, b) * b <= 0
    ensures Abs(TruncDiv(a, b)) <= Abs(a)
  {
    if a >= 0 {
      NonNegativeQuotient(a, b);
    } else {
      DivBounds(-a, b);
      NegativeQuotient(a, b, (-a) / b);
    }
  }

  lemma NonNegativeQuotient(a: int, b: int)
    requires a >= 0 && b > 0
    ensures 0 <= a - TruncDiv(a, b) * b < b
    ensures Abs(TruncDiv(a, b)) <= Abs(a)
  {
    DivBounds(a, b);
  }

  lemma NegativeQuotient(a: int, b: int, m: int)
    requires a < 0 && b > 0 && m == (-a) / b && m * b <= -a < m * b + b && 0 <= m <= -a
    ensures -b < a - TruncDiv(a, b) * b <= 0
    ensures Abs(TruncDiv(a, b)) <= Abs(a)
  {
    assert TruncDiv(a, b) == -m;
    assert (-m) * b == -(m * b);
  }

  lemma DivBounds(n: nat, d: nat)
    requires d > 0
    ensures (n / d) * d <= n < (n / d) * d + d
    ensures 0 <= n / d <= n
  {
    var q, r := n / d, n % d;
    assert n == d * q + r;
    assert 0 <= r < d;
    assert q * d == d * q;
    assert (-1) * d < q * d;
    LessByFactor(-1, q, d);
    MulAtLeast(q, d);
  }

  lemma LessByFactor(a: int, b: int, d: int)
    requires d > 0 && a * d < b * d
    ensures a < b
  {
    assert (b - a) * d == b * d - a * d;
  }

  lemma MulAtLeast(q: nat, d: nat)
    requires d > 0
    ensures q <= q * d
  {
    if d > 1 {
      MulAtLeast(q, d - 1);
      assert q * d == q * (d - 1) + q;
    }
  }

  /** Java `a * b` on `int`. */
  function Mul(a: Int32, b: Int32): (r: Int32)
    ensures (a * b - r) % TwoTo32 == 0
  {
    Wrap(a * b)
  }

  /**
   * Java `a / b` on `int` for a positive divisor, the only kind the client
   * uses; with it the quotient always fits in an `int`.
   */
  function Div(a: Int32, b: Int32): (r: Int32)
    requires b > 0
    ensures a >= 0 ==> 0 <= a - r * b < b
    ensures a < 0 ==> -b < a - r * b <= 0
  {
    TruncDivSpec(a, b);
    TruncDiv(a, b)
  }
}
