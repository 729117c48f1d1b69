/** The root classification of quadricSolver.h over the reals: which of its
    two output locations the solver writes for `a x^2 + b x + c = 0`, and
    with what. Real arithmetic stands in for IEEE doubles; the square root of
    the discriminant is supplied by the caller as `s`. */
module QuadricSolver {

  /** Magnitudes below TOL count as zero. */
  const TOL: real := 0.001

  function Abs(x: real): real
  {
    if x < 0.0 then -x else x
  }

  /** The discriminant b^2 - 4ac. */
  function Disc(a: real, b: real, c: real): real
  {
    b * b - 4.0 * a * c
  }

  /** `x` solves a x^2 + b x + c = 0. */
  predicate IsRoot(a: real, b: real, c: real, x: real)
  {
    a * x * x + b * x + c == 0.0
  }

  /** `s` is the non-negative square root of the discriminant wherever the
      discriminant has one. */
  predicate IsSqrtOfDisc(a: real, b: real, c: real, s: real)
  {
    s >= 0.0 && (Disc(a, b, c) >= 0.0 ==> s * s == Disc(a, b, c))
  }

  /** What one of the two output locations holds after the call:
      `Untouched` when the solver did not write it (the caller's NAN stays),
      `Finite(x)` for a written real value, and `NonFinite` for the infinity
      or NaN that a division by zero writes. */
  datatype Output = Untouched | Finite(x: real) | NonFinite

  /** The two output locations, result_1 and result_2. */
  datatype Roots = Roots(first: Output, second: Output)

  /** quadricSolver, as written. In the linear branch (|a| < TOL) it writes
      -b/a to result_1 only; the reassignment of the local pointer that
      follows has no effect on the caller. Otherwise it writes the repeated
      root -b/2a to both outputs when |D| < TOL, the two roots when D > 0,
      and nothing at all when D <= -TOL. */
  function Solve(a: real, b: real, c: real, s: real): (r: Roots)
    requires IsSqrtOfDisc(a, b, c, s)
    ensures r.first.Untouched? <==> Abs(a) >= TOL && Disc(a, b, c) <= -TOL
    ensures r.second.Untouched? <==> Abs(a) < TOL || Disc(a, b, c) <= -TOL
    ensures r.first.NonFinite? <==> a == 0.0
    ensures !r.second.NonFinite?
  {
    if Abs(a) < TOL then
      Roots(if a == 0.0 then NonFinite else Finite(-b / a), Untouched)
    else
      var d := Disc(a, b, c);
      if Abs(d) < TOL then
        Roots(Finite(-b / 2.0 / a), Finite(-b / 2.0 / a))
      else if d > 0.0 then
        Roots(Finite((-b - s) / 2.0 / a), Finite((-b + s) / 2.0 / a))
      else
        Roots(Untouched, Untouched)
  }

  /** Completing the square: 4a (a x^2 + b x + c) = (2ax + b)^2 - D. */
  lemma CompleteSquare(a: real, b: real, c: real, x: real)
    ensures 4.0 * a * (a * x * x + b * x + c) == (2.0 * a * x + b) * (2.0 * a * x + b) - Disc(a, b, c)
  {
  }

  /** x = (-b + u) / 2a satisfies 2ax + b = u. */
  lemma HalfQuotient(a: real, b: real, u: real)
    requires a != 0.0
    ensures 2.0 * a * ((-b + u) / (2.0 * a)) + b == u
  {
  }

  /** (-b ± √D) / 2a solves the equation. */
  lemma QuotientIsRoot(a: real, b: real, c: real, s: real, u: real)
    requires a != 0.0 && s * s == Disc(a, b, c)
    requires u == s || u == -s
    ensures IsRoot(a, b, c, (-b + u) / (2.0 * a))
  {
    var x := (-b + u) / (2.0 * a);
    HalfQuotient(a, b, u);
    CompleteSquare(a, b, c, x);
    assert 4.0 * a * (a * x * x + b * x + c) == 0.0;
  }

  /** Every root of the equation is (-b - √D) / 2a or (-b + √D) / 2a. */
  lemma RootIsQuotient(a: real, b: real, c: real, s: real, y: real)
    requires a != 0.0 && s >= 0.0 && s * s == Disc(a, b, c)
    requires IsRoot(a, b, c, y)
    ensures y == (-b - s) / (2.0 * a) || y == (-b + s) / (2.0 * a)
  {
    var u := 2.0 * a * y + b;
    CompleteSquare(a, b, c, y);
    assert (u - s) * (u + s) == 0.0;
    assert y * (2.0 * a) == -b + u;
    if u != s {
      assert u + s == (u - s) * (u + s) / (u - s);
      assert y * (2.0 * a) == -b - s;
      assert y == (y * (2.0 * a)) / (2.0 * a);
    } else {
      assert y == (y * (2.0 * a)) / (2.0 * a);
    }
  }

  /** Dividing by 2 and then by a is dividing by 2a. */
  lemma HalveTwice(p: real, a: real)
    requires a != 0.0
    ensures p / 2.0 / a == p / (2.0 * a)
  {
  }

  /** (-b - s)/2a and (-b + s)/2a are s/a apart, so for s > 0 they are
      ascending when a > 0 and descending when a < 0. */
  lemma QuotientsOrdered(a: real, b: real, s: real)
    requires a != 0.0 && s > 0.0
    ensures a > 0.0 ==> (-b - s) / (2.0 * a) < (-b + s) / (2.0 * a)
    ensures a < 0.0 ==> (-b + s) / (2.0 * a) < (-b - s) / (2.0 * a)
  {
    var x1, x2 := (-b - s) / (2.0 * a), (-b + s) / (2.0 * a);
    assert (x2 - x1) * a == s;
  }

  /** s > 0 whenever s^2 is at least TOL. */
  lemma PositiveSqrt(s: real, d: real)
    requires s >= 0.0 && s * s == d && d >= TOL
    ensures s > 0.0
  {
    if s == 0.0 {
      assert false;
    }
  }

  /** Bounds on a square root from bounds on its square. */
  lemma SqrtBetween(s: real, lo: real, hi: real)
    requires s >= 0.0 && lo >= 0.0 && hi >= 0.0
    requires lo * lo < s * s < hi * hi
    ensures lo < s < hi
  {
  }

  /** Linear branch with a != 0: result_1 is -b/a and result_2 stays
      untouched. -b/a is the non-zero root of a x^2 + b x, so the residual
      it leaves in a x^2 + b x + c is exactly c: it solves the equation only
      when c = 0. */
  lemma LinearBranch(a: real, b: real, c: real, s: real)
    requires IsSqrtOfDisc(a, b, c, s)
    requires Abs(a) < TOL && a != 0.0
    ensures Solve(a, b, c, s).second == Untouched
    ensures Solve(a, b, c, s).first.Finite?
    ensures var x := Solve(a, b, c, s).first.x;
            a * x + b == 0.0 && a * x * x + b * x + c == c
  {
    var x := -b / a;
    assert a * x == -b;
    calc {
      a * x * x + b * x;
      (a * x + b) * x;
      0.0;
    }
  }

  /** Linear branch with a = 0: result_1 receives the non-finite -b/0 and
      result_2 stays untouched. */
  lemma LinearBranchZero(a: real, b: real, c: real, s: real)
    requires IsSqrtOfDisc(a, b, c, s)
    requires a == 0.0
    ensures Solve(a, b, c, s) == Roots(NonFinite, Untouched)
  {
  }

  /** Repeated-root branch: both outputs are -b/2a, whose residual is
      -D/4a; so it is an exact root when D = 0 and, since |a| >= TOL and
      |D| < TOL, a root up to a residual below 1/4 otherwise. */
  lemma RepeatedRootBranch(a: real, b: real, c: real, s: real)
    requires IsSqrtOfDisc(a, b, c, s)
    requires Abs(a) >= TOL && Abs(Disc(a, b, c)) < TOL
    ensures var x := -b / (2.0 * a);
            Solve(a, b, c, s) == Roots(Finite(x), Finite(x)) &&
            4.0 * a * (a * x * x + b * x + c) == -Disc(a, b, c) &&
            (Disc(a, b, c) == 0.0 ==> IsRoot(a, b, c, x))
  {
    var x := -b / (2.0 * a);
    assert -b / 2.0 / a == x;
    HalfQuotient(a, b, 0.0);
    assert 2.0 * a * x + b == 0.0;
    CompleteSquare(a, b, c, x);
  }

  /** Two-root branch: result_1 = (-b - √D)/2a and result_2 = (-b + √D)/2a
      are distinct roots, ordered ascending when a > 0 and descending when
      a < 0, and every root of the equation is one of them. */
  lemma TwoRootsBranch(a: real, b: real, c: real, s: real)
    requires IsSqrtOfDisc(a, b, c, s)
    requires Abs(a) >= TOL && Disc(a, b, c) >= TOL
    ensures var x1, x2 := (-b - s) / (2.0 * a), (-b + s) / (2.0 * a);
            Solve(a, b, c, s) == Roots(Finite(x1), Finite(x2)) &&
            IsRoot(a, b, c, x1) && IsRoot(a, b, c, x2) &&
            (a > 0.0 ==> x1 < x2) && (a < 0.0 ==> x2 < x1) &&
            forall y :: IsRoot(a, b, c, y) ==> y == x1 || y == x2
  {
    HalveTwice(-b - s, a);
    HalveTwice(-b + s, a);
    QuotientIsRoot(a, b, c, s, -s);
    QuotientIsRoot(a, b, c, s, s);
    PositiveSqrt(s, Disc(a, b, c));
    QuotientsOrdered(a, b, s);
    forall y | IsRoot(a, b, c, y)
      ensures y == (-b - s) / (2.0 * a) || y == (-b + s) / (2.0 * a)
    {
      RootIsQuotient(a, b, c, s, y);
    }
  }

  /** Negative-discriminant branch: neither output is written, and indeed
      the equation has no real root. */
  lemma NoRootsBranch(a: real, b: real, c: real, s: real)
    requires IsSqrtOfDisc(a, b, c, s)
    requires Abs(a) >= TOL && Disc(a, b, c) <= -TOL
    ensures Solve(a, b, c, s) == Roots(Untouched, Untouched)
    ensures forall y :: !IsRoot(a, b, c, y)
  {
    forall y
      ensures !IsRoot(a, b, c, y)
    {
      CompleteSquare(a, b, c, y);
      var u := 2.0 * a * y + b;
      assert u * u >= 0.0;
    }
  }

  /** quadricSolver with the linear branch the tests expect: -c/b, the root
      of b x + c = 0 (non-finite when b = 0). The quadratic branches are
      those of Solve. */
  function SolveCorrected(a: real, b: real, c: real, s: real): (r: Roots)
    requires IsSqrtOfDisc(a, b, c, s)
    ensures Abs(a) >= TOL ==> r == Solve(a, b, c, s)
    ensures Abs(a) < TOL ==> r.second == Untouched && (r.first.NonFinite? <==> b == 0.0)
    ensures Abs(a) < TOL && r.first.Finite? ==> b * r.first.x + c == 0.0
  {
    if Abs(a) < TOL then
      Roots(if b == 0.0 then NonFinite else Finite(-c / b), Untouched)
    else
      Solve(a, b, c, s)
  }

  /** The linear branch as written misses the root: for a = 1/2000, b = 1,
      c = 1 it writes -2000, which leaves a residual of 1 in
      a x^2 + b x + c = 0 and of -1999 in b x + c = 0, while the corrected
      branch writes -1, the root of b x + c = 0. */
  lemma LinearBranchMissesRoot(s: real)
    requires IsSqrtOfDisc(0.0005, 1.0, 1.0, s)
    ensures Solve(0.0005, 1.0, 1.0, s).first == Finite(-2000.0)
    ensures var x := Solve(0.0005, 1.0, 1.0, s).first.x;
            0.0005 * x * x + 1.0 * x + 1.0 == 1.0 && 1.0 * x + 1.0 == -1999.0
    ensures SolveCorrected(0.0005, 1.0, 1.0, s).first == Finite(-1.0)
  {
  }
}
