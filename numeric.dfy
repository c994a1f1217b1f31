/** Number handling of the normaliser: rounding to hundredths and truncation toward zero. */
module Numeric {

  /** x is a whole number of hundredths. */
  predicate IsHundredth(x: real) {
    (x * 100.0).Floor as real == x * 100.0
  }

  /** x lies exactly halfway between two whole numbers. */
  predicate IsHalfway(x: real) {
    x - x.Floor as real == 0.5
  }

  /** Round to the nearest whole number, ties to the even neighbour (the rule numpy's rint uses). */
  function RoundHalfEven(x: real): (n: int)
    ensures x - 0.5 <= n as real <= x + 0.5
    ensures IsHalfway(x) ==> n % 2 == 0
    ensures !IsHalfway(x) ==> x - 0.5 < n as real < x + 0.5
  {
    var f := x.Floor;
    var d := x - f as real;
    if d < 0.5 then f
    else if d > 0.5 then f + 1
    else if f % 2 == 0 then f
    else f + 1
  }

  /** No whole number is closer to x than RoundHalfEven(x). */
  lemma RoundHalfEvenNearest(x: real, m: int)
    ensures var d := RoundHalfEven(x) as real - x;
            var e := m as real - x;
            (if d < 0.0 then -d else d) <= (if e < 0.0 then -e else e)
  {
    var n := RoundHalfEven(x);
    if m < n {
      assert m as real <= n as real - 1.0;
    } else if m > n {
      assert m as real >= n as real + 1.0;
    }
  }

  /** A whole number rounds to itself. */
  lemma RoundHalfEvenOfInt(k: int)
    ensures RoundHalfEven(k as real) == k
  {
    assert (k as real).Floor == k;
    assert !IsHalfway(k as real);
  }

  /** `Series.round(2)`: the nearest multiple of 0.01, ties to an even number of hundredths. */
  function Round2(t: real): (r: real)
    ensures IsHundredth(r)
    ensures t - 0.005 <= r <= t + 0.005
  {
    var n := RoundHalfEven(t * 100.0);
    assert (n as real * 0.01) * 100.0 == n as real;
    assert (n as real).Floor == n;
    n as real * 0.01
  }

  /** No multiple of 0.01 is closer to t than Round2(t). */
  lemma Round2Nearest(t: real, m: int)
    ensures var d := Round2(t) - t;
            var e := m as real / 100.0 - t;
            (if d < 0.0 then -d else d) <= (if e < 0.0 then -e else e)
  {
    var n := RoundHalfEven(t * 100.0);
    RoundHalfEvenNearest(t * 100.0, m);
    assert Round2(t) - t == (n as real - t * 100.0) * 0.01;
    assert m as real / 100.0 - t == (m as real - t * 100.0) * 0.01;
  }

  /** A value exactly halfway between two hundredths goes to the even one. */
  lemma Round2Tie(t: real)
    requires IsHalfway(t * 100.0)
    ensures (Round2(t) * 100.0).Floor % 2 == 0
  {
    var n := RoundHalfEven(t * 100.0);
    assert Round2(t) * 100.0 == n as real;
  }

  /** A whole number of hundredths is left alone by rounding. */
  lemma Round2OfHundredth(x: real)
    requires IsHundredth(x)
    ensures Round2(x) == x
  {
    var k := (x * 100.0).Floor;
    RoundHalfEvenOfInt(k);
    assert x * 100.0 == k as real;
  }

  /** Rounding an already rounded temperature changes nothing. */
  lemma Round2Idempotent(t: real)
    ensures Round2(Round2(t)) == Round2(t)
  {
    Round2OfHundredth(Round2(t));
  }

  /** `astype(int)` on a float: truncation toward zero. */
  function Trunc(x: real): (n: int)
    ensures 0.0 <= x ==> 0 <= n && n as real <= x < n as real + 1.0
    ensures x < 0.0 ==> n <= 0 && n as real - 1.0 < x <= n as real
  {
    if x >= 0.0 then x.Floor else -((-x).Floor)
  }

  /** The two bounds of Trunc's contract pick out exactly one whole number. */
  lemma TruncUnique(x: real, m: int)
    requires 0.0 <= x ==> 0 <= m && m as real <= x < m as real + 1.0
    requires x < 0.0 ==> m <= 0 && m as real - 1.0 < x <= m as real
    ensures m == Trunc(x)
  {
  }

  /** A whole number truncates to itself. */
  lemma TruncOfInt(k: int)
    ensures Trunc(k as real) == k
  {
  }
}
