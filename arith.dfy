/** Facts about real multiplication and division the timing and altitude
    formulas rely on. */
module RealArith {
  lemma MulDiv(a: real, m: real)
    requires m != 0.0
    ensures (m * a) / m == a
  {
  }

  lemma DivMul(a: real, m: real)
    requires m != 0.0
    ensures m * (a / m) == a
  {
  }

  lemma DivSign(a: real, m: real)
    requires m > 0.0
    ensures a >= 0.0 <==> a / m >= 0.0
  {
  }
}
