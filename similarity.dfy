/** Cosine similarity as the repository computes it, in its four variants.
    Floating point is modelled by `real`; the square root is a parameter `sqrt`,
    of which `IsSqrt` says all that is assumed (sqrt 0 = 0 and, for x > 0,
    sqrt x is the positive root). */
module Similarity {
  import opened Common

  /** Sum of a[i] * b[i], accumulated first index first. */
  function Dot(a: seq<real>, b: seq<real>): real
    requires |a| == |b|
  {
    if a == [] then 0.0 else Dot(a[..|a| - 1], b[..|b| - 1]) + a[|a| - 1] * b[|b| - 1]
  }

  ghost predicate IsSqrt(sqrt: real -> real)
  {
    sqrt(0.0) == 0.0 && forall x :: 0.0 < x ==> 0.0 < sqrt(x) && sqrt(x) * sqrt(x) == x
  }

  predicate IsZeroVector(a: seq<real>) { forall i :: 0 <= i < |a| ==> a[i] == 0.0 }

  /** The TypeScript `cosineSimilarity`: 0 on a length mismatch, 0 when either
      magnitude is 0, otherwise dot / (|a| * |b|). */
  function Cosine(a: seq<real>, b: seq<real>, sqrt: real -> real): (r: real)
    ensures |a| != |b| || sqrt(Dot(a, a)) == 0.0 || sqrt(Dot(b, b)) == 0.0 ==> r == 0.0
    ensures |a| == |b| && sqrt(Dot(a, a)) != 0.0 && sqrt(Dot(b, b)) != 0.0 ==>
              r * (sqrt(Dot(a, a)) * sqrt(Dot(b, b))) == Dot(a, b)
  {
    if |a| != |b| then 0.0
    else
      var ma := sqrt(Dot(a, a));
      var mb := sqrt(Dot(b, b));
      if ma == 0.0 || mb == 0.0 then 0.0 else Dot(a, b) / (ma * mb)
  }

  /** The auth face-login variant: the guard looks at the product of the magnitudes only. */
  function CosineJointMagnitude(a: seq<real>, b: seq<real>, sqrt: real -> real): (r: real)
    ensures |a| != |b| || sqrt(Dot(a, a)) * sqrt(Dot(b, b)) == 0.0 ==> r == 0.0
    ensures |a| == |b| && sqrt(Dot(a, a)) * sqrt(Dot(b, b)) != 0.0 ==>
              r * (sqrt(Dot(a, a)) * sqrt(Dot(b, b))) == Dot(a, b)
  {
    if |a| != |b| then 0.0
    else
      var magnitude := sqrt(Dot(a, a)) * sqrt(Dot(b, b));
      if magnitude == 0.0 then 0.0 else Dot(a, b) / magnitude
  }

  /** face-server.py `cosine_similarity`: the norms are compared with 0 before `np.dot`
      runs, so a zero vector yields 0.0 even when the lengths differ; otherwise a
      length mismatch raises (None). */
  function GuardedNumpyCosine(a: seq<real>, b: seq<real>, sqrt: real -> real): (r: Option<real>)
    ensures sqrt(Dot(a, a)) == 0.0 || sqrt(Dot(b, b)) == 0.0 ==> r == Some(0.0)
    ensures r.None? <==> |a| != |b| && sqrt(Dot(a, a)) != 0.0 && sqrt(Dot(b, b)) != 0.0
    ensures |a| == |b| && sqrt(Dot(a, a)) != 0.0 && sqrt(Dot(b, b)) != 0.0 ==>
              r.Some? && r.value * (sqrt(Dot(a, a)) * sqrt(Dot(b, b))) == Dot(a, b)
  {
    var na := sqrt(Dot(a, a));
    var nb := sqrt(Dot(b, b));
    if na == 0.0 || nb == 0.0 then Some(0.0)
    else if |a| != |b| then None
    else Some(Dot(a, b) / (na * nb))
  }

  /** A numpy float: a number, or NaN (0/0). */
  datatype Float = Finite(v: real) | NaN

  /** Unguarded `np.dot(a, b) / (norm(a) * norm(b))` (facenet-optimized-server.py,
      recognize_face.py): a length mismatch raises (None) and a zero vector gives 0/0. */
  function NumpyCosine(a: seq<real>, b: seq<real>, sqrt: real -> real): (r: Option<Float>)
    ensures r.None? <==> |a| != |b|
    ensures r == Some(NaN) <==> |a| == |b| && sqrt(Dot(a, a)) * sqrt(Dot(b, b)) == 0.0
    ensures r.Some? && r.value.Finite? ==> r.value.v * (sqrt(Dot(a, a)) * sqrt(Dot(b, b))) == Dot(a, b)
  {
    if |a| != |b| then None
    else
      var denominator := sqrt(Dot(a, a)) * sqrt(Dot(b, b));
      if denominator == 0.0 then Some(NaN) else Some(Finite(Dot(a, b) / denominator))
  }

  /** The accumulation loop every TypeScript copy of `cosineSimilarity` runs:
      dot product and both squared magnitudes in one pass. */
  method Accumulate(a: seq<real>, b: seq<real>) returns (dotProduct: real, normA: real, normB: real)
    requires |a| == |b|
    ensures dotProduct == Dot(a, b) && normA == Dot(a, a) && normB == Dot(b, b)
  {
    dotProduct, normA, normB := 0.0, 0.0, 0.0;
    var i := 0;
    while i < |a|
      invariant 0 <= i <= |a|
      invariant dotProduct == Dot(a[..i], b[..i])
      invariant normA == Dot(a[..i], a[..i])
      invariant normB == Dot(b[..i], b[..i])
    {
      assert a[..i + 1][..i] == a[..i];
      assert b[..i + 1][..i] == b[..i];
      dotProduct := dotProduct + a[i] * b[i];
      normA := normA + a[i] * a[i];
      normB := normB + b[i] * b[i];
      i := i + 1;
    }
    assert a[..i] == a && b[..i] == b;
  }

  /** `cosineSimilarity` of the attendance and professor routes: the loop, then the guards. */
  method CosineLoop(a: seq<real>, b: seq<real>, sqrt: real -> real) returns (r: real)
    ensures r == Cosine(a, b, sqrt)
  {
    if |a| != |b| {
      return 0.0;
    }
    var dotProduct, magnitudeA, magnitudeB := Accumulate(a, b);
    magnitudeA := sqrt(magnitudeA);
    magnitudeB := sqrt(magnitudeB);
    if magnitudeA == 0.0 || magnitudeB == 0.0 {
      return 0.0;
    }
    r := dotProduct / (magnitudeA * magnitudeB);
  }

  /** `cosineSimilarity` of the auth face-login route. */
  method CosineJointMagnitudeLoop(a: seq<real>, b: seq<real>, sqrt: real -> real) returns (r: real)
    ensures r == CosineJointMagnitude(a, b, sqrt)
  {
    if |a| != |b| {
      return 0.0;
    }
    var dotProduct, normA, normB := Accumulate(a, b);
    var magnitude := sqrt(normA) * sqrt(normB);
    if magnitude == 0.0 {
      return 0.0;
    }
    r := dotProduct / magnitude;
  }

  // ---------------------------------------------------------------- lemmas

  /** Dot(a, a) is a sum of squares: never negative, and zero only for the zero vector. */
  lemma {:induction false} DotSelfNonNegative(a: seq<real>)
    ensures Dot(a, a) >= 0.0
    ensures Dot(a, a) == 0.0 <==> IsZeroVector(a)
  {
    if a != [] {
      var a' := a[..|a| - 1];
      DotSelfNonNegative(a');
      var x := a[|a| - 1];
      if IsZeroVector(a) {
        assert IsZeroVector(a') by {
          forall i | 0 <= i < |a'| ensures a'[i] == 0.0 { assert a'[i] == a[i]; }
        }
        assert x == 0.0;
      } else if x == 0.0 {
        var i :| 0 <= i < |a| && a[i] != 0.0;
        assert a'[i] == a[i];
        assert !IsZeroVector(a');
      } else {
        ProductPositive(Dot(a', a'), x, x);
      }
    }
  }

  /** Adding the product of two numbers of the same strict sign to a
      non-negative number gives a positive number. (Stated over two variables:
      the solver handles x * y here more reliably than a literal square.) */
  lemma ProductPositive(d: real, x: real, y: real)
    requires d >= 0.0
    requires (x > 0.0 && y > 0.0) || (x < 0.0 && y < 0.0)
    ensures d + x * y > 0.0
  {
    if x > 0.0 {
      assert x * y > 0.0 * y;
    } else {
      assert (-x) * (-y) > 0.0 * (-y);
      assert x * y == (-x) * (-y);
    }
  }

  lemma {:induction false} DotCommutes(a: seq<real>, b: seq<real>)
    requires |a| == |b|
    ensures Dot(a, b) == Dot(b, a)
  {
    if a != [] {
      DotCommutes(a[..|a| - 1], b[..|b| - 1]);
    }
  }

  lemma {:induction false} DotWithZero(a: seq<real>, b: seq<real>)
    requires |a| == |b| && IsZeroVector(a)
    ensures Dot(a, b) == 0.0
  {
    if a != [] {
      var a' := a[..|a| - 1];
      assert IsZeroVector(a') by {
        forall i | 0 <= i < |a'| ensures a'[i] == 0.0 { assert a'[i] == a[i]; }
      }
      DotWithZero(a', b[..|b| - 1]);
    }
  }

  /** A zero vector has similarity 0 with anything, so the division by the
      magnitudes never happens. */
  lemma CosineZeroVector(a: seq<real>, b: seq<real>, sqrt: real -> real)
    requires IsSqrt(sqrt)
    requires IsZeroVector(a) || IsZeroVector(b)
    ensures Cosine(a, b, sqrt) == 0.0
    ensures CosineJointMagnitude(a, b, sqrt) == 0.0
    ensures GuardedNumpyCosine(a, b, sqrt) == Some(0.0)
  {
    DotSelfNonNegative(a);
    DotSelfNonNegative(b);
  }

  /** `cosineSimilarity(a, b) == cosineSimilarity(b, a)`. */
  lemma CosineSymmetric(a: seq<real>, b: seq<real>, sqrt: real -> real)
    ensures Cosine(a, b, sqrt) == Cosine(b, a, sqrt)
  {
    if |a| == |b| {
      DotCommutes(a, b);
      var ma := sqrt(Dot(a, a));
      var mb := sqrt(Dot(b, b));
      assert ma * mb == mb * ma;
    }
  }

  /** A non-zero vector has similarity exactly 1 with itself. */
  lemma CosineSelf(a: seq<real>, sqrt: real -> real)
    requires IsSqrt(sqrt) && !IsZeroVector(a)
    ensures Cosine(a, a, sqrt) == 1.0
  {
    DotSelfNonNegative(a);
    var d := Dot(a, a);
    assert d > 0.0;
    var m := sqrt(d);
    assert m > 0.0 && m * m == d;
    assert d / (m * m) == 1.0;
  }

  /** Testing the product of the magnitudes (auth face-login) is the same as
      testing each magnitude (every other TypeScript copy). */
  lemma CosineVariantsAgree(a: seq<real>, b: seq<real>, sqrt: real -> real)
    requires IsSqrt(sqrt)
    ensures CosineJointMagnitude(a, b, sqrt) == Cosine(a, b, sqrt)
  {
    if |a| == |b| {
      DotSelfNonNegative(a);
      DotSelfNonNegative(b);
      var ma := sqrt(Dot(a, a));
      var mb := sqrt(Dot(b, b));
      if ma != 0.0 && mb != 0.0 {
        assert ma > 0.0 && mb > 0.0;
        assert ma * mb > 0.0;
      }
    }
  }

  /** The guarded Python copy agrees with the TypeScript one whenever the
      lengths agree, and raises only on a length mismatch between non-zero vectors. */
  lemma GuardedNumpyAgrees(a: seq<real>, b: seq<real>, sqrt: real -> real)
    requires IsSqrt(sqrt)
    ensures |a| == |b| ==> GuardedNumpyCosine(a, b, sqrt) == Some(Cosine(a, b, sqrt))
    ensures GuardedNumpyCosine(a, b, sqrt).None? <==>
              |a| != |b| && !IsZeroVector(a) && !IsZeroVector(b)
  {
    DotSelfNonNegative(a);
    DotSelfNonNegative(b);
  }

  /** Unguarded numpy: NaN exactly for a zero vector, otherwise the guarded value. */
  lemma NumpyCosineNaN(a: seq<real>, b: seq<real>, sqrt: real -> real)
    requires IsSqrt(sqrt) && |a| == |b|
    ensures NumpyCosine(a, b, sqrt) == Some(NaN) <==> IsZeroVector(a) || IsZeroVector(b)
    ensures !IsZeroVector(a) && !IsZeroVector(b) ==>
              NumpyCosine(a, b, sqrt) == Some(Finite(Cosine(a, b, sqrt)))
  {
    DotSelfNonNegative(a);
    DotSelfNonNegative(b);
    var na := sqrt(Dot(a, a));
    var nb := sqrt(Dot(b, b));
    if na != 0.0 && nb != 0.0 {
      assert na > 0.0 && nb > 0.0;
      assert na * nb > 0.0;
    }
  }
}
