/** Polynomials over GF(2), as the finite sets of exponents with coefficient 1.

    Addition is symmetric difference and multiplication by x^k shifts every exponent by k.
 */
module Polynomials {

  type Poly = set<nat>

  function Add(p: Poly, q: Poly): Poly { (p - q) + (q - p) }

  function Shift(p: Poly, k: nat): Poly { set e | e in p :: e + k }

  /** The generator x^8 + x^5 + x^4 + 1. */
  const G: Poly := {0, 4, 5, 8}

  /** The product of `p` and the generator. */
  function TimesG(p: Poly): Poly {
    Add(Add(Shift(p, 8), Shift(p, 5)), Add(Shift(p, 4), p))
  }

  ghost predicate DegreeBelow(p: Poly, d: nat) { forall e :: e in p ==> e < d }

  /** `r` is a remainder of `p` on division by the generator. */
  ghost predicate IsRemainder(p: Poly, r: Poly) {
    DegreeBelow(r, 8) && exists q :: p == Add(TimesG(q), r)
  }

  ghost predicate Divides(p: Poly) { exists q :: p == TimesG(q) }

  // ---------- Arithmetic ----------

  lemma InAdd(p: Poly, q: Poly, e: nat)
    ensures e in Add(p, q) <==> (e in p) != (e in q)
  {
  }

  lemma InShift(p: Poly, k: nat, e: nat)
    ensures e in Shift(p, k) <==> e >= k && e - k in p
  {
  }

  lemma AddAssociates(p: Poly, q: Poly, r: Poly)
    ensures Add(Add(p, q), r) == Add(p, Add(q, r))
  {
  }

  lemma AddSelf(p: Poly)
    ensures Add(p, p) == {} && Add(p, {}) == p && Add({}, p) == p
  {
  }

  lemma AddCancels(p: Poly, q: Poly)
    ensures Add(Add(p, q), q) == p
    ensures Add(p, q) == {} <==> p == q
  {
  }

  /** (p + q) + (r + s) == (p + r) + (q + s). */
  lemma AddSwapsMiddle(p: Poly, q: Poly, r: Poly, s: Poly)
    ensures Add(Add(p, q), Add(r, s)) == Add(Add(p, r), Add(q, s))
  {
  }

  lemma ShiftAdds(p: Poly, q: Poly, k: nat)
    ensures Shift(Add(p, q), k) == Add(Shift(p, k), Shift(q, k))
  {
  }

  lemma ShiftShift(p: Poly, j: nat, k: nat)
    ensures Shift(Shift(p, j), k) == Shift(p, j + k)
  {
    forall e: nat ensures e in Shift(Shift(p, j), k) <==> e in Shift(p, j + k) {
      InShift(Shift(p, j), k, e);
      if e >= k { InShift(p, j, e - k); }
      InShift(p, j + k, e);
    }
  }

  lemma ShiftZero(p: Poly)
    ensures Shift(p, 0) == p
  {
  }

  lemma TimesGAdds(p: Poly, q: Poly)
    ensures TimesG(Add(p, q)) == Add(TimesG(p), TimesG(q))
  {
    ShiftAdds(p, q, 8);
    ShiftAdds(p, q, 5);
    ShiftAdds(p, q, 4);
    AddSwapsMiddle(Shift(p, 8), Shift(q, 8), Shift(p, 5), Shift(q, 5));
    AddSwapsMiddle(Shift(p, 4), Shift(q, 4), p, q);
    AddSwapsMiddle(Add(Shift(p, 8), Shift(p, 5)), Add(Shift(q, 8), Shift(q, 5)),
                   Add(Shift(p, 4), p), Add(Shift(q, 4), q));
  }

  lemma TimesGShifts(p: Poly, k: nat)
    ensures TimesG(Shift(p, k)) == Shift(TimesG(p), k)
  {
    ShiftShift(p, k, 8);
    ShiftShift(p, 8, k);
    ShiftShift(p, k, 5);
    ShiftShift(p, 5, k);
    ShiftShift(p, k, 4);
    ShiftShift(p, 4, k);
    ShiftAdds(Shift(p, 8), Shift(p, 5), k);
    ShiftAdds(Shift(p, 4), p, k);
    ShiftAdds(Add(Shift(p, 8), Shift(p, 5)), Add(Shift(p, 4), p), k);
  }

  // ---------- Degree and uniqueness ----------

  lemma {:induction false} HasTop(p: Poly) returns (m: nat)
    requires p != {}
    ensures m in p && forall e :: e in p ==> e <= m
  {
    var x: nat :| x in p;
    var q := p - {x};
    assert p == q + {x};
    if q == {} {
      m := x;
    } else {
      m := HasTop(q);
      if x > m { m := x; }
    }
  }

  /** A non-zero multiple of the generator has degree at least 8. */
  lemma MultipleHasHighDegree(q: Poly)
    ensures q == {} || !DegreeBelow(TimesG(q), 8)
  {
    if q != {} {
      var m := HasTop(q);
      InTimesG(q, m + 8);
      assert m + 8 in TimesG(q);
    }
  }

  lemma InTimesG(q: Poly, e: nat)
    ensures e in TimesG(q)
       <==> ((e in Shift(q, 8)) != (e in Shift(q, 5))) != ((e in Shift(q, 4)) != (e in q))
    ensures e in Shift(q, 8) <==> e >= 8 && e - 8 in q
    ensures e in Shift(q, 5) <==> e >= 5 && e - 5 in q
    ensures e in Shift(q, 4) <==> e >= 4 && e - 4 in q
  {
  }

  /** The remainder is unique. */
  lemma RemainderUnique(p: Poly, r1: Poly, r2: Poly)
    requires IsRemainder(p, r1) && IsRemainder(p, r2)
    ensures r1 == r2
  {
    var q1 :| p == Add(TimesG(q1), r1);
    var q2 :| p == Add(TimesG(q2), r2);
    TimesGAdds(q1, q2);
    assert TimesG(Add(q1, q2)) == Add(r1, r2) by {
      AddSwapsMiddle(TimesG(q1), r1, TimesG(q2), r2);
      AddSelf(p);
      AddCancels(Add(TimesG(q1), TimesG(q2)), Add(r1, r2));
    }
    MultipleHasHighDegree(Add(q1, q2));
    AddCancels(r1, r2);
    TimesGOfZero();
  }

  lemma TimesGOfZero()
    ensures TimesG({}) == {}
  {
  }

  lemma DividesMeansZeroRemainder(p: Poly)
    ensures Divides(p) <==> IsRemainder(p, {})
  {
  }

  // ---------- Remainders of sums and shifts ----------

  lemma RemainderAdds(p1: Poly, r1: Poly, p2: Poly, r2: Poly)
    requires IsRemainder(p1, r1) && IsRemainder(p2, r2)
    ensures IsRemainder(Add(p1, p2), Add(r1, r2))
  {
    var q1 :| p1 == Add(TimesG(q1), r1);
    var q2 :| p2 == Add(TimesG(q2), r2);
    TimesGAdds(q1, q2);
    AddSwapsMiddle(TimesG(q1), r1, TimesG(q2), r2);
    assert Add(p1, p2) == Add(TimesG(Add(q1, q2)), Add(r1, r2));
  }

  /** One step of long division: multiply a remainder by x, and subtract the generator if degree 8 is reached. */
  function TimesX(r: Poly): Poly {
    if 7 in r then Add(Shift(r, 1), G) else Shift(r, 1)
  }

  lemma RemainderTimesX(p: Poly, r: Poly)
    requires IsRemainder(p, r)
    ensures IsRemainder(Shift(p, 1), TimesX(r))
  {
    var q :| p == Add(TimesG(q), r);
    ShiftAdds(TimesG(q), r, 1);
    TimesGShifts(q, 1);
    TimesXDegree(r);
    if 7 in r {
      TimesGOfOne();
      TimesGAdds(Shift(q, 1), {0});
      AddToBoth(TimesG(Shift(q, 1)), Shift(r, 1), G);
      assert Shift(p, 1) == Add(TimesG(Add(Shift(q, 1), {0})), TimesX(r));
    } else {
      assert Shift(p, 1) == Add(TimesG(Shift(q, 1)), TimesX(r));
    }
  }

  lemma InTimesX(r: Poly, e: nat)
    ensures e in TimesX(r) <==> (e >= 1 && e - 1 in r) != (7 in r && e in G)
  {
  }

  lemma AddToBoth(p: Poly, q: Poly, r: Poly)
    ensures Add(p, q) == Add(Add(p, r), Add(q, r))
  {
  }

  lemma TimesXDegree(r: Poly)
    requires DegreeBelow(r, 8)
    ensures DegreeBelow(TimesX(r), 8)
  {
  }

  lemma TimesGOfOne()
    ensures TimesG({0}) == G
  {
  }

  // ---------- Divisibility ----------

  /** A polynomial without constant term is a multiple of x. */
  lemma DivideByX(q: Poly) returns (h: Poly)
    requires 0 !in q
    ensures q == Shift(h, 1)
  {
    h := set e | e in q :: e - 1;
    forall e: nat ensures e in q <==> e in Shift(h, 1) {
      InShift(h, 1, e);
      if e in q { assert e - 1 in h; }
    }
  }

  /** x does not divide the generator, so it can be cancelled. */
  lemma DividesCancelsX(p: Poly)
    requires Divides(Shift(p, 1))
    ensures Divides(p)
  {
    var q :| Shift(p, 1) == TimesG(q);
    InShift(p, 1, 0);
    InTimesG(q, 0);
    var h := DivideByX(q);
    TimesGShifts(h, 1);
    ShiftInjective(p, TimesG(h), 1);
  }

  lemma ShiftInjective(p: Poly, q: Poly, k: nat)
    requires Shift(p, k) == Shift(q, k)
    ensures p == q
  {
    forall e: nat ensures e in p <==> e in q {
      InShift(p, k, e + k);
      InShift(q, k, e + k);
    }
  }

  /** Multiplying by a power of x neither creates nor destroys divisibility by the generator. */
  lemma {:induction false} DividesShift(p: Poly, k: nat)
    ensures Divides(Shift(p, k)) <==> Divides(p)
  {
    if Divides(p) {
      var q :| p == TimesG(q);
      TimesGShifts(q, k);
      assert Shift(p, k) == TimesG(Shift(q, k));
    }
    if k == 0 {
      ShiftZero(p);
    } else if Divides(Shift(p, k)) {
      ShiftShift(p, k - 1, 1);
      DividesCancelsX(Shift(p, k - 1));
      DividesShift(p, k - 1);
    }
  }

  // ---------- Parity: the factor x + 1 ----------

  lemma {:induction false} ShiftSize(p: Poly, k: nat)
    ensures |Shift(p, k)| == |p|
  {
    if p == {} {
      assert Shift(p, k) == {};
    } else {
      var x: nat :| x in p;
      var q := p - {x};
      ShiftSize(q, k);
      InShift(q, k, x + k);
      forall e: nat ensures e in Shift(p, k) <==> e in Shift(q, k) + {x + k} {
        InShift(p, k, e);
        InShift(q, k, e);
      }
      assert Shift(p, k) == Shift(q, k) + {x + k};
    }
  }

  lemma FourOfOneSizeAddEven(a: Poly, b: Poly, c: Poly, d: Poly)
    requires |a| == |b| == |c| == |d|
    ensures |Add(Add(a, b), Add(c, d))| % 2 == 0
  {
  }

  lemma TimesGIsEven(q: Poly)
    ensures |TimesG(q)| % 2 == 0
  {
    ShiftSize(q, 8);
    ShiftSize(q, 5);
    ShiftSize(q, 4);
    FourOfOneSizeAddEven(Shift(q, 8), Shift(q, 5), Shift(q, 4), q);
  }

  /** Every multiple of the generator has an even number of terms. */
  lemma MultiplesAreEven(p: Poly)
    requires Divides(p)
    ensures |p| % 2 == 0
  {
    var q :| p == TimesG(q);
    TimesGIsEven(q);
  }

  /** A non-zero polynomial whose terms all lie in a window of 8 exponents is no multiple of the generator. */
  lemma ShortBurstIsNoMultiple(p: Poly, lo: nat)
    requires p != {} && forall e :: e in p ==> lo <= e < lo + 8
    ensures !Divides(p)
  {
    var b := set e | e in p :: e - lo;
    forall e: nat ensures e in p <==> e in Shift(b, lo) {
      InShift(b, lo, e);
    }
    assert p == Shift(b, lo);
    var e: nat :| e in p;
    assert e - lo in b;
    DividesShift(b, lo);
    TimesGOfZero();
    forall q ensures b != TimesG(q) {
      MultipleHasHighDegree(q);
    }
  }
}
