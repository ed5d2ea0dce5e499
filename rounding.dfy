/**
 * Rounding of the reported percentages to two decimals. The table library
 * rounds a column by scaling by 100, rounding to the nearest integer with
 * ties to the even neighbour, and scaling back; here that is done on exact
 * reals.
 */
module Rounding {

  /** The nearest integer to x; on a tie, the even one. */
  function RoundHalfEven(x: real): (n: int)
    ensures x - 0.5 <= n as real <= x + 0.5
    ensures (x - n as real == 0.5 || n as real - x == 0.5) ==> n % 2 == 0
  {
    var f := x.Floor;
    var d := x - f as real;
    if d < 0.5 then f
    else if d > 0.5 then f + 1
    else if f % 2 == 0 then f
    else f + 1
  }

  /** round(x, 2): x to two decimal places. */
  function Round2(x: real): (r: real)
    ensures -0.005 <= r - x <= 0.005
  {
    RoundHalfEven(x * 100.0) as real / 100.0
  }

  /** A return reported as a percentage: round(return * 100, 2). */
  function Pct(ret: real): (p: real)
    ensures -0.005 <= p - ret * 100.0 <= 0.005
  {
    Round2(ret * 100.0)
  }

  /** A value already on the two-decimal grid is reported unchanged. */
  lemma {:induction false} Round2Exact(n: int)
    ensures Round2(n as real / 100.0) == n as real / 100.0
  {
    var x := n as real / 100.0;
    assert x * 100.0 == n as real;
    assert (n as real).Floor == n;
  }

  /** Rounding twice is rounding once. */
  lemma {:induction false} Round2Idempotent(x: real)
    ensures Round2(Round2(x)) == Round2(x)
  {
    Round2Exact(RoundHalfEven(x * 100.0));
  }
}
