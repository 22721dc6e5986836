/**
 Small facts of integer and real arithmetic that the solver does not find on
 its own once products of variables appear. Each is stated once here and used
 by the lattice and by both grid builders.
 */
module Arith {

  lemma MulPred(n: nat, m: nat)
    requires 0 < n
    ensures (n - 1) * m + m == n * m
  {
  }

  lemma MulMonotone(a: int, b: int, m: nat)
    requires a <= b
    ensures a * m <= b * m
  {
  }

  /** A product of naturals is 0 exactly when a factor is. */
  lemma ProductZero(n: nat, m: nat)
    ensures n * m == 0 <==> n == 0 || m == 0
  {
    if n != 0 && m != 0 {
      MulMonotone(1, n, m);
    }
  }

  lemma RealMulLe(a: real, b: real, s: real)
    requires a <= b && 0.0 < s
    ensures a * s <= b * s
  {
  }

  lemma RealMulLt(a: real, b: real, s: real)
    requires a < b && 0.0 < s
    ensures a * s < b * s
  {
  }

  /** A non-zero factor cancels. */
  lemma CancelNonZero(x: real, y: real, s: real)
    requires s != 0.0 && x * s == y * s
    ensures x == y
  {
    assert (x - y) * s == 0.0;
  }
}
