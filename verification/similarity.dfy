/**
  `cosineSimilarity` of the background worker: one loop accumulates the dot
  product and both sums of squares, then the dot product is divided by the
  product of the two magnitudes unless one of them is zero. Numbers are
  modelled as reals and `Math.sqrt` as a parameter; each lemma says what it
  needs of it.
 */
module Similarity {
  import opened Documents

  /** The product of two coordinates. It is a function of its own so that
      sums of products stay linear terms for the solver. */
  function Product(x: real, y: real): real {
    x * y
  }

  /** Sum of `a[i] * b[i]`, accumulated from the first coordinate on. */
  function Dot(a: Vector, b: Vector): real
    requires |a| == |b|
    decreases |a|
  {
    if a == [] then 0.0 else Dot(a[..|a| - 1], b[..|b| - 1]) + Product(a[|a| - 1], b[|b| - 1])
  }

  /** The square of the Euclidean norm. */
  function SumSquares(a: Vector): real {
    Dot(a, a)
  }

  /** A faithful square root: non-negative, and squaring it gives back its
      argument. */
  ghost predicate IsSquareRoot(sqrt: real -> real) {
    forall x :: x >= 0.0 ==> sqrt(x) >= 0.0 && sqrt(x) * sqrt(x) == x
  }

  /** The similarity the loop computes, in closed form. JavaScript's
      `magnitudeA && magnitudeB` is false when a magnitude is 0 or `NaN`; over
      equal-length real vectors no `NaN` arises, so it is false exactly when
      a magnitude is 0. */
  function Cosine(a: Vector, b: Vector, sqrt: real -> real): real
    requires |a| == |b|
  {
    var magnitudeA := sqrt(SumSquares(a));
    var magnitudeB := sqrt(SumSquares(b));
    if magnitudeA != 0.0 && magnitudeB != 0.0 then Dot(a, b) / (magnitudeA * magnitudeB) else 0.0
  }

  /** `cosineSimilarity(vecA, vecB)` as written: one pass over the
      coordinates, then the guarded division. */
  method CosineSimilarity(vecA: Vector, vecB: Vector, sqrt: real -> real) returns (r: real)
    requires |vecA| == |vecB|
    ensures r == Cosine(vecA, vecB, sqrt)
  {
    var dotProduct, magnitudeA, magnitudeB := 0.0, 0.0, 0.0;
    var i := 0;
    while i < |vecA|
      invariant 0 <= i <= |vecA|
      invariant dotProduct == Dot(vecA[..i], vecB[..i])
      invariant magnitudeA == SumSquares(vecA[..i])
      invariant magnitudeB == SumSquares(vecB[..i])
    {
      assert vecA[..i + 1][..i] == vecA[..i];
      assert vecB[..i + 1][..i] == vecB[..i];
      dotProduct := dotProduct + vecA[i] * vecB[i];
      magnitudeA := magnitudeA + vecA[i] * vecA[i];
      magnitudeB := magnitudeB + vecB[i] * vecB[i];
      i := i + 1;
    }
    assert vecA[..i] == vecA && vecB[..i] == vecB;
    magnitudeA := sqrt(magnitudeA);
    magnitudeB := sqrt(magnitudeB);
    if magnitudeA != 0.0 && magnitudeB != 0.0 {
      r := dotProduct / (magnitudeA * magnitudeB);
    } else {
      r := 0.0;
    }
  }

  /** The accumulations are the same with the vectors swapped. */
  lemma {:induction false} DotSymmetric(a: Vector, b: Vector)
    requires |a| == |b|
    ensures Dot(a, b) == Dot(b, a)
    decreases |a|
  {
    if a != [] {
      DotSymmetric(a[..|a| - 1], b[..|b| - 1]);
      assert Product(a[|a| - 1], b[|b| - 1]) == Product(b[|b| - 1], a[|a| - 1]);
    }
  }

  /** Similarity does not depend on the order of its arguments. */
  lemma CosineSymmetric(a: Vector, b: Vector, sqrt: real -> real)
    requires |a| == |b|
    ensures Cosine(a, b, sqrt) == Cosine(b, a, sqrt)
  {
    DotSymmetric(a, b);
    var ma, mb := sqrt(SumSquares(a)), sqrt(SumSquares(b));
    assert ma * mb == mb * ma;
  }

  lemma ProductPositive(x: real, y: real)
    requires x > 0.0 && y > 0.0
    ensures Product(x, y) > 0.0
  {}

  /** A square is never negative, and is zero only for zero. */
  lemma SquareSign(x: real)
    ensures Product(x, x) >= 0.0
    ensures x == 0.0 || Product(x, x) > 0.0
  {
    if x < 0.0 {
      ProductPositive(-x, -x);
      assert Product(x, x) == Product(-x, -x);
    } else if x > 0.0 {
      ProductPositive(x, x);
    }
  }

  /** A sum of squares is never negative, and is zero exactly for the zero
      vector. */
  lemma {:induction false} SumSquaresZero(a: Vector)
    ensures SumSquares(a) >= 0.0
    ensures SumSquares(a) == 0.0 <==> forall i :: 0 <= i < |a| ==> a[i] == 0.0
    decreases |a|
  {
    if a != [] {
      var p, x := a[..|a| - 1], a[|a| - 1];
      SumSquaresZero(p);
      SquareSign(x);
      assert SumSquares(a) == SumSquares(p) + Product(x, x);
      if SumSquares(a) == 0.0 {
        assert x == 0.0;
        forall i | 0 <= i < |a| ensures a[i] == 0.0 {
          if i < |p| {
            assert a[i] == p[i];
          }
        }
      }
      if forall i :: 0 <= i < |a| ==> a[i] == 0.0 {
        assert forall i :: 0 <= i < |p| ==> p[i] == a[i];
        assert Product(x, x) == 0.0;
      }
    }
  }

  /** The guard: a zero vector on either side scores 0 rather than dividing
      by zero, given only that the square root of 0 is 0. */
  lemma ZeroVectorScoresZero(a: Vector, b: Vector, sqrt: real -> real)
    requires |a| == |b|
    requires sqrt(0.0) == 0.0
    requires (forall i :: 0 <= i < |a| ==> a[i] == 0.0) || (forall i :: 0 <= i < |b| ==> b[i] == 0.0)
    ensures Cosine(a, b, sqrt) == 0.0
  {
    SumSquaresZero(a);
    SumSquaresZero(b);
  }

  /** With a faithful square root, every non-zero vector is fully similar to
      itself. */
  lemma SelfSimilarity(a: Vector, sqrt: real -> real)
    requires IsSquareRoot(sqrt)
    requires exists i :: 0 <= i < |a| && a[i] != 0.0
    ensures Cosine(a, a, sqrt) == 1.0
  {
    SumSquaresZero(a);
    var s := SumSquares(a);
    var m := sqrt(s);
    assert s > 0.0;
    assert m * m == s;
    assert m != 0.0;
    assert Cosine(a, a, sqrt) == s / (m * m);
    assert s / s == 1.0;
  }
}
