/**
  Products and quotients of real times and rates.  Proofs that only need the laws below hide
  the definitions, so that the solver sees no nonlinear arithmetic.
*/
module Rates {
  function Times(a: real, b: real): real { a * b }

  function Over(a: real, b: real): real
    requires b > 0.0
  {
    a / b
  }

  function Min(a: real, b: real): (m: real)
    ensures m <= a && m <= b && (m == a || m == b)
  {
    if a < b then a else b
  }

  function Max(a: real, b: real): (m: real)
    ensures m >= a && m >= b && (m == a || m == b)
  {
    if a > b then a else b
  }

  lemma TimesMonotone(a: real, b: real, c: real)
    requires a <= b && c >= 0.0
    ensures Times(a, c) <= Times(b, c)
  {
    assert 0.0 <= (b - a) * c;
  }

  lemma TimesAdd(a: real, b: real, c: real)
    ensures Times(a + b, c) == Times(a, c) + Times(b, c)
  {
  }

  lemma TimesNonNegative(a: real, c: real)
    requires a >= 0.0 && c >= 0.0
    ensures Times(a, c) >= 0.0
  {
  }

  lemma TimesZero(c: real)
    ensures Times(0.0, c) == 0.0
  {
  }

  lemma TimesOne(c: real)
    ensures Times(1.0, c) == c
  {
  }

  lemma OverTimes(a: real, c: real)
    requires c > 0.0
    ensures Times(Over(a, c), c) == a
  {
  }

  lemma OverPositive(a: real, c: real)
    requires a > 0.0 && c > 0.0
    ensures Over(a, c) > 0.0
  {
  }
}
