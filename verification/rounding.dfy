/** The C library's `round`: to the nearest integer, halfway cases away from zero. */
module Rounding {

  function Round(x: real): (n: int)
    ensures x >= 0.0 ==> x - 0.5 < n as real <= x + 0.5
    ensures x < 0.0 ==> x - 0.5 <= n as real < x + 0.5
  {
    if x >= 0.0 then (x + 0.5).Floor else -((0.5 - x).Floor)
  }

  /** The interval in the contract of `Round` pins the result down: any integer in it is `Round(x)`. */
  lemma RoundUnique(x: real, n: int)
    requires x >= 0.0 ==> x - 0.5 < n as real <= x + 0.5
    requires x < 0.0 ==> x - 0.5 <= n as real < x + 0.5
    ensures Round(x) == n
  {
    var r := Round(x);
    assert -1.0 < r as real - n as real < 1.0;
  }

  /** Rounding an integral value gives that value back. */
  lemma RoundOfInteger(n: int)
    ensures Round(n as real) == n
  {
    RoundUnique(n as real, n);
  }

  /** Rounding is symmetric about zero, which is what "away from zero" means for ties. */
  lemma RoundOdd(x: real)
    ensures Round(-x) == -Round(x)
  {
    if x > 0.0 {
      RoundUnique(-x, -Round(x));
    } else if x < 0.0 {
      RoundUnique(-x, -Round(x));
    } else {
      RoundOfInteger(0);
    }
  }

  /** A value exactly halfway between two integers goes to the one farther from zero. */
  lemma RoundTieAwayFromZero(k: nat)
    ensures Round(k as real + 0.5) == k + 1
    ensures Round(-(k as real) - 0.5) == -(k + 1)
  {
    RoundUnique(k as real + 0.5, k + 1);
    RoundUnique(-(k as real) - 0.5, -(k + 1));
  }
}
