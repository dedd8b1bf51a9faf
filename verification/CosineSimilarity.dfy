/** The cosine similarity of crp/advanced/cross_window.py (lines 607-622), which
    crp/advanced/auto_ingest.py (lines 230-237) repeats, over exact reals.

    Algebra over a fixed number of reals is kept apart from the recursion over the vectors. */
module CosineSimilarity {

  import opened Common

  type Vector = seq<real>

  function Dot(a: Vector, b: Vector): real
    requires |a| == |b|
  {
    if a == [] then 0.0 else a[0] * b[0] + Dot(a[1..], b[1..])
  }

  /** `r` is the square root of `x`. */
  ghost predicate IsRoot(r: real, x: real) {
    0.0 <= r && r * r == x
  }

  /** `normA` and `normB` are the values of the two square roots that the code takes. */
  function Cosine(a: Vector, b: Vector, normA: real, normB: real): real {
    if |a| != |b| || a == [] then 0.0
    else if normA > 0.0 && normB > 0.0 then Dot(a, b) / (normA * normB)
    else 0.0
  }

  // ---------------------------------------------------------------------------------------------
  // Algebra

  function Times(x: real, y: real): real { x * y }

  /** p^2 t - 2 p q d + q^2 s */
  ghost function Quadratic(p: real, q: real, s: real, t: real, d: real): real {
    p * p * t - 2.0 * p * q * d + q * q * s
  }

  lemma PositiveProduct(x: real, y: real)
    requires x > 0.0 && y > 0.0
    ensures x * y > 0.0
  {
  }

  lemma Distribute(c: real, x: real, y: real)
    ensures c * (x + y) == c * x + c * y
  {
  }

  lemma PositiveTimes(x: real, y: real)
    requires x > 0.0 && y > 0.0
    ensures Times(x, y) > 0.0
  {
  }

  lemma SquareSign(x: real)
    ensures Times(x, x) >= 0.0
    ensures Times(x, x) == 0.0 <==> x == 0.0
  {
    if x > 0.0 {
      PositiveTimes(x, x);
    } else if x < 0.0 {
      PositiveTimes(-x, -x);
      assert Times(x, x) == Times(-x, -x);
    }
  }

  lemma PositiveFactor(s: real, x: real)
    requires s > 0.0
    ensures s * x >= 0.0 ==> x >= 0.0
    ensures s * x == 0.0 <==> x == 0.0
  {
    if x < 0.0 {
      PositiveProduct(s, -x);
      assert s * -x == -(s * x);
    } else if x > 0.0 {
      PositiveProduct(s, x);
    }
  }

  lemma SquareOfDifference(p: real, y: real, q: real, x: real)
    ensures Times(p * y - q * x, p * y - q * x) == Quadratic(p, q, x * x, y * y, x * y)
  {
    var u, v := p * y, q * x;
    assert Times(u - v, u - v) == u * u - 2.0 * (u * v) + v * v;
    assert u * u == p * p * (y * y);
    assert v * v == q * q * (x * x);
    assert u * v == p * q * (x * y) by {
      assert u * v == p * (y * (q * x));
      assert y * (q * x) == q * (x * y);
    }
  }

  lemma QuadraticAdds(p: real, q: real, s: real, t: real, d: real, s': real, t': real, d': real)
    ensures Quadratic(p, q, s + s', t + t', d + d') == Quadratic(p, q, s, t, d) + Quadratic(p, q, s', t', d')
  {
    Distribute(p * p, t, t');
    Distribute(2.0 * p * q, d, d');
    Distribute(q * q, s, s');
  }

  /** What is left when the quadratic is taken at p = s, q = d. */
  lemma CauchyAlgebra(s: real, t: real, d: real)
    requires s > 0.0 && Quadratic(s, d, s, t, d) >= 0.0
    ensures d * d <= s * t
  {
    assert s * s * t == s * (s * t);
    assert s * d * d == s * (d * d);
    assert d * d * s == s * (d * d);
    Distribute(s, s * t, -(d * d));
    PositiveFactor(s, s * t - d * d);
  }

  lemma StrictSquares(y: real, x: real)
    requires 0.0 <= y < x
    ensures y * y < x * x
  {
    PositiveProduct(x - y, x + y);
    assert (x - y) * (x + y) == x * x - y * y;
  }

  lemma SquaresOrdered(x: real, y: real)
    requires 0.0 <= x && 0.0 <= y && x * x <= y * y
    ensures x <= y
  {
    if y < x {
      StrictSquares(y, x);
    }
  }

  lemma ProductSquared(x: real, y: real)
    ensures (x * y) * (x * y) == (x * x) * (y * y)
  {
    assert (x * y) * (x * y) == x * (y * (x * y));
    assert y * (x * y) == x * (y * y);
    assert x * (x * (y * y)) == (x * x) * (y * y);
  }

  lemma QuotientInRange(d: real, n: real)
    requires n > 0.0 && -n <= d <= n
    ensures -1.0 <= d / n <= 1.0
  {
    QuotientCompare(d, n, 1.0);
    QuotientCompare(-d, n, 1.0);
    assert (-d) / n == -(d / n);
  }

  lemma NormsBoundDot(normA: real, normB: real, s: real, t: real, d: real)
    requires normA > 0.0 && normB > 0.0 && IsRoot(normA, s) && IsRoot(normB, t)
    requires d * d <= s * t
    ensures normA * normB > 0.0 && -(normA * normB) <= d <= normA * normB
  {
    PositiveProduct(normA, normB);
    ProductSquared(normA, normB);
    if d >= 0.0 {
      SquaresOrdered(d, normA * normB);
    } else {
      assert (-d) * (-d) == d * d;
      SquaresOrdered(-d, normA * normB);
    }
  }

  lemma NormsAtQuadratic(normA: real, normB: real, s: real, t: real, d: real)
    requires normA > 0.0 && normB > 0.0 && IsRoot(normA, s) && IsRoot(normB, t)
    ensures normA * normB > 0.0
    ensures Quadratic(normA, normB, s, t, d) == 0.0 <==> d == normA * normB
  {
    var n := normA * normB;
    PositiveProduct(normA, normB);
    ProductSquared(normA, normB);
    assert 2.0 * normA * normB * d == 2.0 * (n * d);
    Distribute(n, n, -d);
    assert Quadratic(normA, normB, s, t, d) == 2.0 * (n * (n - d));
    PositiveFactor(n, n - d);
  }

  // ---------------------------------------------------------------------------------------------
  // Vectors

  /** The sum of the squares (p b[i] - q a[i])^2. */
  function Residual(a: Vector, b: Vector, p: real, q: real): real
    requires |a| == |b|
  {
    if a == [] then 0.0
    else Times(p * b[0] - q * a[0], p * b[0] - q * a[0]) + Residual(a[1..], b[1..], p, q)
  }

  lemma {:induction false} ResidualExpands(a: Vector, b: Vector, p: real, q: real)
    requires |a| == |b|
    ensures Residual(a, b, p, q) == Quadratic(p, q, Dot(a, a), Dot(b, b), Dot(a, b))
  {
    if a == [] {
      assert Quadratic(p, q, 0.0, 0.0, 0.0) == 0.0;
    } else {
      ResidualExpands(a[1..], b[1..], p, q);
      hide Quadratic, Times;
      var x, y := a[0], b[0];
      SquareOfDifference(p, y, q, x);
      QuadraticAdds(p, q, x * x, y * y, x * y, Dot(a[1..], a[1..]), Dot(b[1..], b[1..]), Dot(a[1..], b[1..]));
    }
  }

  /** A residual is never negative, and zero only when the vectors are in proportion p : q. */
  lemma {:induction false} ResidualSign(a: Vector, b: Vector, p: real, q: real)
    requires |a| == |b|
    ensures Residual(a, b, p, q) >= 0.0
    ensures Residual(a, b, p, q) == 0.0 <==> forall i | 0 <= i < |a| :: p * b[i] == q * a[i]
  {
    if a != [] {
      ResidualSign(a[1..], b[1..], p, q);
      hide Times;
      SquareSign(p * b[0] - q * a[0]);
      assert forall i | 1 <= i < |a| :: a[i] == a[1..][i - 1] && b[i] == b[1..][i - 1];
    }
  }

  lemma {:induction false} DotSelf(a: Vector)
    ensures Dot(a, a) >= 0.0
    ensures Dot(a, a) == 0.0 <==> forall i | 0 <= i < |a| :: a[i] == 0.0
  {
    if a != [] {
      DotSelf(a[1..]);
      SquareSign(a[0]);
      assert forall i | 1 <= i < |a| :: a[i] == a[1..][i - 1];
    }
  }

  lemma {:induction false} DotSymmetric(a: Vector, b: Vector)
    requires |a| == |b|
    ensures Dot(a, b) == Dot(b, a)
  {
    if a != [] {
      DotSymmetric(a[1..], b[1..]);
    }
  }

  lemma {:induction false} DotZero(a: Vector, b: Vector)
    requires |a| == |b|
    requires forall i | 0 <= i < |a| :: a[i] == 0.0
    ensures Dot(a, b) == 0.0
  {
    if a != [] {
      DotZero(a[1..], b[1..]);
      assert 0.0 * b[0] == 0.0;
    }
  }

  lemma CauchySchwarz(a: Vector, b: Vector)
    requires |a| == |b|
    ensures Dot(a, b) * Dot(a, b) <= Dot(a, a) * Dot(b, b)
  {
    hide *;
    var s, t, d := Dot(a, a), Dot(b, b), Dot(a, b);
    DotSelf(a);
    if s == 0.0 {
      DotZero(a, b);
      assert 0.0 * 0.0 == 0.0 * t;
    } else {
      ResidualExpands(a, b, s, d);
      ResidualSign(a, b, s, d);
      CauchyAlgebra(s, t, d);
    }
  }

  // ---------------------------------------------------------------------------------------------
  // The range, and when its upper end is reached

  /** "Cosine similarity in the range [-1.0, 1.0], or 0.0 for invalid input." */
  lemma {:induction false} CosineRange(a: Vector, b: Vector, normA: real, normB: real)
    requires IsRoot(normA, Dot(a, a)) && IsRoot(normB, Dot(b, b))
    ensures -1.0 <= Cosine(a, b, normA, normB) <= 1.0
    ensures |a| != |b| || a == [] ==> Cosine(a, b, normA, normB) == 0.0
  {
    hide Dot, IsRoot;
    if |a| == |b| && a != [] && normA > 0.0 && normB > 0.0 {
      CauchySchwarz(a, b);
      NormsBoundDot(normA, normB, Dot(a, a), Dot(b, b), Dot(a, b));
      QuotientInRange(Dot(a, b), normA * normB);
    }
  }

  /** The value does not depend on the order of the arguments. */
  lemma CosineSymmetric(a: Vector, b: Vector, normA: real, normB: real)
    ensures Cosine(a, b, normA, normB) == Cosine(b, a, normB, normA)
  {
    if |a| == |b| && a != [] && normA > 0.0 && normB > 0.0 {
      DotSymmetric(a, b);
      assert normA * normB == normB * normA;
    }
  }

  /** Every pair of coordinates is in the proportion of the two norms. */
  ghost predicate SameDirection(a: Vector, b: Vector, normA: real, normB: real)
    requires |a| == |b|
  {
    forall i | 0 <= i < |a| :: normA * b[i] == normB * a[i]
  }

  /** Non-zero vectors of equal length score 1 exactly when one is a positive multiple of the other. */
  lemma {:induction false} CosineOneIff(a: Vector, b: Vector, normA: real, normB: real)
    requires |a| == |b| && a != [] && normA > 0.0 && normB > 0.0
    requires IsRoot(normA, Dot(a, a)) && IsRoot(normB, Dot(b, b))
    ensures Cosine(a, b, normA, normB) == 1.0 <==> SameDirection(a, b, normA, normB)
  {
    hide Dot, IsRoot, Residual, Quadratic;
    NormsAtQuadratic(normA, normB, Dot(a, a), Dot(b, b), Dot(a, b));
    QuotientCompare(Dot(a, b), normA * normB, 1.0);
    ResidualExpands(a, b, normA, normB);
    ResidualSign(a, b, normA, normB);
  }

  // ---------------------------------------------------------------------------------------------
  // Every value in between

  lemma QuotientTimes(d: real, n: real)
    requires n != 0.0
    ensures d / n * n == d
  {
  }

  /** The law of cosines: the similarity is the one number for which the squared distance of the two
      vectors is normA^2 + normB^2 - 2 normA normB times it. */
  lemma LawOfCosines(a: Vector, b: Vector, normA: real, normB: real, c: real)
    requires |a| == |b| && a != [] && normA > 0.0 && normB > 0.0
    requires IsRoot(normA, Dot(a, a)) && IsRoot(normB, Dot(b, b))
    ensures c == Cosine(a, b, normA, normB) <==>
              Residual(a, b, 1.0, 1.0) == normA * normA + normB * normB - 2.0 * (normA * normB * c)
  {
    hide Dot, Residual;
    var n, d := normA * normB, Dot(a, b);
    PositiveProduct(normA, normB);
    ResidualExpands(a, b, 1.0, 1.0);
    QuotientTimes(d, n);
    assert Residual(a, b, 1.0, 1.0) == Dot(a, a) - 2.0 * d + Dot(b, b);
    var x := Cosine(a, b, normA, normB);
    assert n * x == d;
    Distribute(n, c, -x);
    PositiveFactor(n, c - x);
  }

  /** Every pair of coordinates is in the proportion of the two norms, with the opposite sign. */
  ghost predicate OppositeDirection(a: Vector, b: Vector, normA: real, normB: real)
    requires |a| == |b|
  {
    forall i | 0 <= i < |a| :: normA * b[i] == -(normB * a[i])
  }

  /** What is left of the quadratic at the two norms with opposite signs. */
  lemma NormsAtOpposite(normA: real, normB: real, s: real, t: real, d: real)
    requires normA > 0.0 && normB > 0.0 && IsRoot(normA, s) && IsRoot(normB, t)
    ensures normA * normB > 0.0
    ensures Quadratic(normA, -normB, s, t, d) == 0.0 <==> d == -(normA * normB)
  {
    var n := normA * normB;
    PositiveProduct(normA, normB);
    ProductSquared(normA, normB);
    assert 2.0 * normA * -normB * d == -(2.0 * (n * d));
    assert -normB * -normB * s == normB * normB * s;
    Distribute(n, n, d);
    assert Quadratic(normA, -normB, s, t, d) == 2.0 * (n * (n + d));
    PositiveFactor(n, n + d);
  }

  /** Non-zero vectors of equal length score -1 exactly when they point in opposite directions. */
  lemma CosineMinusOneIff(a: Vector, b: Vector, normA: real, normB: real)
    requires |a| == |b| && a != [] && normA > 0.0 && normB > 0.0
    requires IsRoot(normA, Dot(a, a)) && IsRoot(normB, Dot(b, b))
    ensures Cosine(a, b, normA, normB) == -1.0 <==> OppositeDirection(a, b, normA, normB)
  {
    hide Dot, IsRoot, Residual, Quadratic;
    var n, d := normA * normB, Dot(a, b);
    NormsAtOpposite(normA, normB, Dot(a, a), Dot(b, b), d);
    QuotientTimes(d, n);
    QuotientCompare(d, n, -1.0);
    ResidualExpands(a, b, normA, -normB);
    ResidualSign(a, b, normA, -normB);
  }

  /** The similarity is 0 exactly for invalid input, when a vector is zero, and when the two are
      orthogonal. */
  lemma {:induction false} CosineZeroIff(a: Vector, b: Vector, normA: real, normB: real)
    requires IsRoot(normA, Dot(a, a)) && IsRoot(normB, Dot(b, b))
    ensures Cosine(a, b, normA, normB) == 0.0 <==>
              || |a| != |b| || a == []
              || (forall i | 0 <= i < |a| :: a[i] == 0.0) || (forall i | 0 <= i < |b| :: b[i] == 0.0)
              || Residual(a, b, 1.0, 1.0) == normA * normA + normB * normB
  {
    DotSelf(a);
    DotSelf(b);
    RootSign(normA, Dot(a, a));
    RootSign(normB, Dot(b, b));
    hide Dot, IsRoot, Residual;
    if |a| == |b| && a != [] && normA > 0.0 && normB > 0.0 {
      LawOfCosines(a, b, normA, normB, 0.0);
      assert normA * normB * 0.0 == 0.0;
    }
  }

  lemma RootSign(r: real, x: real)
    requires IsRoot(r, x)
    ensures r > 0.0 <==> x != 0.0
  {
    SquareSign(r);
  }
}
