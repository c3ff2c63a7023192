/** Products of reals, stated one at a time so that proofs need not multiply. */
module RealFacts {
  lemma NoZeroDivisors(x: real, y: real)
    requires x * y == 0.0
    ensures x == 0.0 || y == 0.0
  {
  }

  lemma TimesZero(x: real, y: real)
    requires y == 0.0
    ensures x * y == 0.0 && y * x == 0.0
  {
  }
}
