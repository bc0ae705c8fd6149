/** Python's `round(float(x), 2)`, taken on the exact value of the number:
    the nearest multiple of 0.01, ties going to the even multiple. */
module PyRound {

  /** The integer nearest to `y`; when `y` lies exactly half-way between two
      integers, the even one (Python's round-half-to-even). */
  function RoundHalfEven(y: real): (n: int)
    ensures n as real - 0.5 <= y <= n as real + 0.5
    ensures (y == n as real - 0.5 || y == n as real + 0.5) ==> n % 2 == 0
  {
    var f := y.Floor;
    var d := y - f as real;
    if d < 0.5 then f
    else if d > 0.5 then f + 1
    else if f % 2 == 0 then f
    else f + 1
  }

  /** `round(x, 2)`: a whole number of hundredths, within half a hundredth
      of the input. */
  function Round2(x: real): (r: real)
    ensures (r * 100.0).Floor as real == r * 100.0
    ensures x - 0.005 <= r <= x + 0.005
  {
    var n := RoundHalfEven(x * 100.0);
    assert n as real - 0.5 <= x * 100.0 <= n as real + 0.5;
    n as real / 100.0
  }

  /** The contract of `RoundHalfEven` determines its result: any integer that
      is nearest to `y`, with ties to even, is the one it returns. */
  lemma RoundHalfEvenUnique(y: real, m: int)
    requires m as real - 0.5 <= y <= m as real + 0.5
    requires (y == m as real - 0.5 || y == m as real + 0.5) ==> m % 2 == 0
    ensures RoundHalfEven(y) == m
  {
  }

  /** Rounding an already rounded number changes nothing, so normalising a
      weight or volume twice is the same as normalising it once. */
  lemma Round2Idempotent(x: real)
    ensures Round2(Round2(x)) == Round2(x)
  {
    var n := RoundHalfEven(x * 100.0);
    assert Round2(x) * 100.0 == n as real;
    RoundHalfEvenUnique(n as real, n);
  }
}
