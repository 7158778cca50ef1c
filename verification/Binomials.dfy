/** Binomial coefficients: they count what the threads of `race.c` can do to each other. */
module Binomials {

  /** The binomial coefficient (v + q over q), by Pascal's rule; 0 for negative q. */
  function Choose(v: nat, q: int): nat
    decreases v, q
  {
    if q < 0 then 0 else if q == 0 || v == 0 then 1 else Choose(v, q - 1) + Choose(v - 1, q)
  }

  lemma Pascal(v: nat, q: int)
    requires v > 0
    ensures Choose(v, q) == Choose(v, q - 1) + Choose(v - 1, q)
  {
  }

  lemma ChooseFromZero(q: nat)
    ensures Choose(0, q) == 1
  {
  }

  function Factorial(n: nat): nat { if n == 0 then 1 else n * Factorial(n - 1) }

  /** The quotient of factorials that the name promises. */
  lemma {:induction false} ChooseIsBinomial(v: nat, q: nat)
    ensures Choose(v, q) * (Factorial(v) * Factorial(q)) == Factorial(v + q)
    decreases v, q
  {
    if v == 0 || q == 0 {
    } else {
      var fv, fq, f := Factorial(v - 1), Factorial(q - 1), Factorial(v + q - 1);
      ChooseIsBinomial(v, q - 1);
      ChooseIsBinomial(v - 1, q);
      PascalTimesFactorials(Choose(v, q - 1), Choose(v - 1, q), v, q, fv, fq, f);
    }
  }

  lemma PascalTimesFactorials(a: nat, b: nat, v: nat, q: nat, fv: nat, fq: nat, f: nat)
    requires a * ((v * fv) * fq) == f && b * (fv * (q * fq)) == f
    ensures (a + b) * ((v * fv) * (q * fq)) == (v + q) * f
  {
    calc {
      (a + b) * ((v * fv) * (q * fq));
      a * ((v * fv) * (q * fq)) + b * ((v * fv) * (q * fq));
      { assert a * ((v * fv) * (q * fq)) == q * (a * ((v * fv) * fq)); }
      { assert b * ((v * fv) * (q * fq)) == v * (b * (fv * (q * fq))); }
      q * f + v * f;
      (v + q) * f;
    }
  }

  /** More than linear as soon as there are two to choose. */
  lemma ChooseAtLeast(v: nat, q: int)
    requires q >= 1
    ensures Choose(v, q) >= v + 1
    ensures q >= 2 ==> Choose(v, q) >= 2 * v + 1
  {
    ChooseOne(v);
    ChooseMonotone(v, 1, q);
    if q >= 2 {
      ChooseTwo(v);
      ChooseMonotone(v, 2, q);
      assert (v + 1) * (v + 2) >= 2 * (2 * v + 1) by { assert v == 0 || v * v >= v; }
    }
  }

  lemma {:induction false} ChooseMonotone(v: nat, q: int, r: int)
    requires q <= r
    ensures Choose(v, q) <= Choose(v, r)
    decreases r - q
  {
    if q == r {
    } else {
      ChooseMonotone(v, q, r - 1);
      if v > 0 { Pascal(v, r); }
    }
  }

  /** Choose(n, 1), 2 * Choose(n, 2) and 6 * Choose(n, 3) as polynomials. */
  lemma {:induction false} ChooseOne(n: nat)
    ensures Choose(n, 1) == n + 1
  {
    if n == 0 {
      ChooseFromZero(1);
    } else {
      ChooseOne(n - 1);
      Pascal(n, 1);
    }
  }

  lemma {:induction false} ChooseTwo(n: nat)
    ensures 2 * Choose(n, 2) == (n + 1) * (n + 2)
  {
    if n == 0 {
      ChooseFromZero(2);
    } else {
      ChooseTwo(n - 1);
      ChooseOne(n);
      Pascal(n, 2);
      NextSquare(n);
    }
  }

  lemma {:induction false} ChooseThree(n: nat)
    ensures 6 * Choose(n, 3) == (n + 1) * (n + 2) * (n + 3)
  {
    if n == 0 {
      ChooseFromZero(3);
    } else {
      ChooseThree(n - 1);
      ChooseTwo(n);
      Pascal(n, 3);
      NextCube(n);
    }
  }

  lemma NextSquare(n: nat)
    ensures 2 * (n + 1) + n * (n + 1) == (n + 1) * (n + 2)
  {
  }

  lemma NextCube(n: nat)
    ensures 3 * ((n + 1) * (n + 2)) + n * (n + 1) * (n + 2) == (n + 1) * (n + 2) * (n + 3)
  {
  }
}
