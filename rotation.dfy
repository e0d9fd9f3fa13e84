/**
 * The device reports its shaft position as a 12-bit encoder count, 4096
 * counts to a revolution; the client turns it into degrees with the Java
 * `int` expression `count * 360 / 4096`: the product wraps around on
 * overflow and the quotient is rounded toward zero.
 */
module Rotation {
  import opened JavaInt

  const CountsPerRevolution: Int32 := 4096
  const DegreesPerRevolution: Int32 := 360

  /** The largest count whose product with 360 still fits in an `int`. */
  const ExactBound: int := 5965232

  predicate InExactRange(count: int) { -ExactBound <= count <= ExactBound }

  /** `count * 360 / 4096` in Java `int` arithmetic. */
  function ToDegrees(count: Int32): (d: Int32)
    ensures InExactRange(count) && count >= 0 ==> d * 4096 <= count * 360 < d * 4096 + 4096
    ensures InExactRange(count) && count < 0 ==> d * 4096 - 4096 < count * 360 <= d * 4096
  {
    ProductFits(count);
    Div(Mul(count, DegreesPerRevolution), CountsPerRevolution)
  }

  lemma ProductFits(count: Int32)
    ensures InExactRange(count) ==> Mul(count, 360) == count * 360
  {
    if InExactRange(count) {
      assert -ExactBound * 360 <= count * 360 <= ExactBound * 360;
    }
  }

  /** Division by 4096, rounding toward zero, keeps the order of dividends. */
  lemma TruncDivMonotone(x: int, y: int)
    requires x <= y
    ensures TruncDiv(x, 4096) <= TruncDiv(y, 4096)
  {
  }

  /** Over the range where nothing overflows, a larger count never reads as fewer degrees. */
  lemma ToDegreesMonotone(a: Int32, b: Int32)
    requires InExactRange(a) && InExactRange(b) && a <= b
    ensures ToDegrees(a) <= ToDegrees(b)
  {
    ProductFits(a);
    ProductFits(b);
    TruncDivMonotone(a * 360, b * 360);
  }

  /** Every count of one revolution, 0 to 4095, reads as a whole degree from 0 to 359. */
  lemma OneRevolution(count: Int32)
    requires 0 <= count < 4096
    ensures 0 <= ToDegrees(count) < 360
  {
    var d := ToDegrees(count);
    assert d * 4096 <= count * 360 < d * 4096 + 4096;
    assert count * 360 < 4096 * 360;
  }

  /**
   * Rounding is toward zero, so a count and its negation read as opposite
   * angles (Euclidean division would read -1 as -1 degree instead of 0).
   */
  lemma ToDegreesOdd(count: Int32)
    requires InExactRange(count)
    ensures ToDegrees(-count as Int32) == -ToDegrees(count)
  {
    ProductFits(count);
    ProductFits(-count as Int32);
    assert (-count) * 360 == -(count * 360);
  }

  /** One more revolution of counts adds exactly 360 degrees. */
  lemma FullTurn(count: Int32)
    requires 0 <= count && count + 4096 <= ExactBound
    ensures ToDegrees((count + 4096) as Int32) == ToDegrees(count) + 360
  {
    ProductFits(count);
    ProductFits((count + 4096) as Int32);
    var d := ToDegrees(count);
    var e := ToDegrees((count + 4096) as Int32);
    assert (count + 4096) * 360 == count * 360 + 360 * 4096;
    assert e * 4096 <= count * 360 + 360 * 4096 < e * 4096 + 4096;
    assert d * 4096 <= count * 360 < d * 4096 + 4096;
    assert (e - 360) * 4096 <= count * 360 < (e - 360) * 4096 + 4096;
    UniqueQuotient(count * 360, d, e - 360);
  }

  lemma UniqueQuotient(x: int, p: int, q: int)
    requires p * 4096 <= x < p * 4096 + 4096
    requires q * 4096 <= x < q * 4096 + 4096
    ensures p == q
  {
  }

  /** Readings the device can report, and what `rotation()` returns for them. */
  lemma SensorExamples()
    ensures ToDegrees(1024) == 90 && ToDegrees(512) == 45
    ensures ToDegrees(0) == 0 && ToDegrees(4095) == 359 && ToDegrees(2048) == 180
    ensures ToDegrees(-1) == 0 && ToDegrees(-1024) == -90
  {
  }

  /** Just past ExactBound the product wraps around and the reading turns negative. */
  lemma OverflowExample()
    ensures ToDegrees(5965233) == -524287
  {
  }
}
