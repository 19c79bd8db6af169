/** SemanticVector and DivergenceReport.classify of vermyth/schema/_legacy.py. */
module SemanticVectors {
  import opened Reals
  import opened Wrappers
  import opened Schema
  import opened Vectors

  /** A vector with the basis version it was made under. */
  datatype SemanticVector = SemanticVector(components: Vector, basisVersion: Option<nat>)

  function Basis(v: SemanticVector): nat {
    if v.basisVersion.Some? then v.basisVersion.value else 0
  }

  /** upsample_to: zero-padded to `dim`, relabelled to `version`. */
  function UpsampleTo(v: SemanticVector, version: nat, dim: nat): (r: SemanticVector)
    ensures SamePadded(r.components, v.components)
    ensures Basis(r) == version
  {
    var missing := if dim > |v.components| then dim - |v.components| else 0;
    SemanticVector(v.components + seq(missing, _ => 0.0), Some(version))
  }

  /** The cosine as a quotient, without any clamp; 0 if either vector is null. */
  function Cosine(sqrt: real -> real, a: Vector, b: Vector): real {
    var denom := Norm(sqrt, a) * Norm(sqrt, b);
    if denom == 0.0 then 0.0 else Dot(a, b, Max(|a|, |b|)) / denom
  }

  lemma DenominatorSign(sqrt: real -> real, a: Vector, b: Vector)
    requires IsSqrt(sqrt)
    ensures Norm(sqrt, a) * Norm(sqrt, b) >= 0.0
    ensures Norm(sqrt, a) * Norm(sqrt, b) == 0.0 <==> Norm(sqrt, a) == 0.0 || Norm(sqrt, b) == 0.0
  {
    NormSquare(sqrt, a);
    NormSquare(sqrt, b);
    if Norm(sqrt, a) > 0.0 && Norm(sqrt, b) > 0.0 {
      PositiveProduct(Norm(sqrt, a), Norm(sqrt, b));
    }
  }

  /** Cauchy-Schwarz in the form the clamps need. */
  lemma CosineInRange(sqrt: real -> real, a: Vector, b: Vector)
    requires IsSqrt(sqrt)
    ensures -1.0 <= Cosine(sqrt, a, b) <= 1.0
  {
    DenominatorSign(sqrt, a, b);
    DotBound(sqrt, a, b, Max(|a|, |b|));
    if Norm(sqrt, a) * Norm(sqrt, b) != 0.0 {
      QuotientAtMost(Dot(a, b, Max(|a|, |b|)), Norm(sqrt, a) * Norm(sqrt, b), 1.0);
      QuotientAtLeast(Dot(a, b, Max(|a|, |b|)), Norm(sqrt, a) * Norm(sqrt, b), -1.0);
    }
  }

  /** Zero-padding changes no cosine. */
  lemma PaddingKeepsCosine(sqrt: real -> real, a: Vector, a': Vector, b: Vector, b': Vector)
    requires SamePadded(a, a') && SamePadded(b, b')
    ensures Cosine(sqrt, a', b') == Cosine(sqrt, a, b)
  {
    SumSqOfSame(a, a');
    SumSqOfSame(b, b');
    var m, m' := Max(|a|, |b|), Max(|a'|, |b'|);
    var n := Max(m, m');
    DotBeyond(a, b, m, n);
    DotBeyond(a', b', m', n);
    DotAgrees(a, b, a', b', n);
  }

  /** Zero-padding changes no L2 distance. */
  lemma PaddingKeepsDistance(sqrt: real -> real, a: Vector, a': Vector, b: Vector, b': Vector)
    requires SamePadded(a, a') && SamePadded(b, b')
    ensures Distance(sqrt, a', b') == Distance(sqrt, a, b)
  {
    SumSqOfSame(Difference(a, b), Difference(a', b'));
  }

  /** _l2_norm: the accumulator loop. */
  method L2Norm(sqrt: real -> real, v: Vector) returns (n: real)
    ensures n == Norm(sqrt, v)
  {
    var s := 0.0;
    for i := 0 to |v|
      invariant s == Dot(v, v, i)
    {
      s := s + v[i] * v[i];
    }
    return sqrt(s);
  }

  /** cosine_similarity: fails on different basis versions; otherwise the unclamped
      quotient, although the code would clamp it to [-1, 1]. */
  method CosineSimilarity(sqrt: real -> real, left: SemanticVector, right: SemanticVector)
    returns (r: Result<real, string>)
    requires IsSqrt(sqrt)
    ensures r.Failure? <==> Basis(left) != Basis(right)
    ensures r.Success? ==> r.value == Cosine(sqrt, left.components, right.components) && -1.0 <= r.value <= 1.0
  {
    if Basis(left) != Basis(right) {
      return Failure("incompatible basis versions");
    }
    CosineInRange(sqrt, left.components, right.components);
    DenominatorSign(sqrt, left.components, right.components);
    var na := L2Norm(sqrt, left.components);
    var nb := L2Norm(sqrt, right.components);
    if na == 0.0 || nb == 0.0 {
      return Success(0.0);
    }
    var dot := 0.0;
    var dim := Max(|left.components|, |right.components|);
    for i := 0 to dim
      invariant dot == Dot(left.components, right.components, i)
    {
      var a := if i < |left.components| then left.components[i] else 0.0;
      var b := if i < |right.components| then right.components[i] else 0.0;
      dot := dot + a * b;
    }
    var denom := na * nb;
    if denom == 0.0 {
      return Success(0.0);
    }
    var sim := dot / denom;
    assert sim == Cosine(sqrt, left.components, right.components);
    return Success(Clamp(sim, -1.0, 1.0));
  }

  datatype Thresholds = Thresholds(
    l2StableMax: real, l2DivergedMin: real, cosineStableMax: real, cosineDivergedMin: real)

  /** The validator of DivergenceThresholds. */
  predicate ValidThresholds(t: Thresholds) {
    && 0.0 <= t.l2StableMax < t.l2DivergedMin
    && 0.0 <= t.cosineStableMax < t.cosineDivergedMin <= 2.0
  }

  datatype DivergenceReport = DivergenceReport(l2: real, cosineDistance: real, status: DivergenceStatus)

  function Rank(s: DivergenceStatus): nat {
    match s
    case Stable => 0
    case Drifting => 1
    case Diverged => 2
  }

  function Grade(x: real, stableMax: real, divergedMin: real): DivergenceStatus {
    if x < stableMax then Stable else if x >= divergedMin then Diverged else Drifting
  }

  /** classify: exact L2 and cosine distance, whatever the lengths and basis versions of
      the two vectors; the status is the worse of the two grades. */
  method Classify(sqrt: real -> real, parent: SemanticVector, child: SemanticVector, t: Thresholds)
    returns (report: DivergenceReport)
    requires IsSqrt(sqrt) && ValidThresholds(t)
    ensures report.l2 == Distance(sqrt, child.components, parent.components)
    ensures report.cosineDistance == 1.0 - Cosine(sqrt, parent.components, child.components)
    ensures 0.0 <= report.cosineDistance <= 2.0
    ensures report.status == Stable <==> report.l2 < t.l2StableMax && report.cosineDistance < t.cosineStableMax
    ensures report.status == Diverged <==> report.l2 >= t.l2DivergedMin || report.cosineDistance >= t.cosineDivergedMin
  {
    var p, c := parent, child;
    if Basis(p) != Basis(c) {
      var version, dim := Max(Basis(p), Basis(c)), Max(|p.components|, |c.components|);
      p, c := UpsampleTo(p, version, dim), UpsampleTo(c, version, dim);
    }
    PaddingKeepsCosine(sqrt, parent.components, p.components, child.components, c.components);
    PaddingKeepsDistance(sqrt, child.components, c.components, parent.components, p.components);
    var l2 := L2Distance(sqrt, c.components, p.components);
    CosineInRange(sqrt, p.components, c.components);
    var cosine := CosineSimilarity(sqrt, p, c);
    var cosineDistance := Clamp(1.0 - cosine.value, 0.0, 2.0);
    var byL2 := Grade(l2, t.l2StableMax, t.l2DivergedMin);
    var byCosine := Grade(cosineDistance, t.cosineStableMax, t.cosineDivergedMin);
    return DivergenceReport(l2, cosineDistance, if Rank(byCosine) > Rank(byL2) then byCosine else byL2);
  }

  /** The accumulator loop over the padded difference. */
  method L2Distance(sqrt: real -> real, child: Vector, parent: Vector) returns (l2: real)
    ensures l2 == Distance(sqrt, child, parent)
  {
    ghost var diff := Difference(child, parent);
    var dim := Max(|child|, |parent|);
    var squares := 0.0;
    for i := 0 to dim
      invariant squares == Dot(diff, diff, i)
    {
      var d := (if i < |child| then child[i] else 0.0) - (if i < |parent| then parent[i] else 0.0);
      assert d == At(diff, i);
      squares := squares + d * d;
    }
    return sqrt(squares);
  }

  // ---- Which sign and scale a cosine has ----

  lemma CosineTimesNorms(sqrt: real -> real, a: Vector, b: Vector)
    requires IsSqrt(sqrt)
    ensures Norm(sqrt, a) * Norm(sqrt, b) * Cosine(sqrt, a, b) == Dot(a, b, Max(|a|, |b|))
  {
    var denom, dot := Norm(sqrt, a) * Norm(sqrt, b), Dot(a, b, Max(|a|, |b|));
    DenominatorSign(sqrt, a, b);
    if denom == 0.0 {
      DotBound(sqrt, a, b, Max(|a|, |b|));
    } else {
      QuotientTimes(dot, denom);
    }
  }

  /** The law of cosines, for vectors of any lengths. */
  lemma LawOfCosines(sqrt: real -> real, a: Vector, b: Vector)
    requires IsSqrt(sqrt)
    ensures Distance(sqrt, a, b) * Distance(sqrt, a, b)
         == Norm(sqrt, a) * Norm(sqrt, a) + Norm(sqrt, b) * Norm(sqrt, b)
            - 2.0 * (Norm(sqrt, a) * Norm(sqrt, b) * Cosine(sqrt, a, b))
  {
    var square := DistanceSquare(sqrt, a, b);
    NormSquare(sqrt, a);
    NormSquare(sqrt, b);
    CosineTimesNorms(sqrt, a, b);
  }

  lemma OppositeNorm(sqrt: real -> real, c: real, v: Vector)
    ensures Norm(sqrt, Scale(c, v)) == Norm(sqrt, Scale(-c, v))
  {
    DotOfScaled(c, v, |v|);
    DotOfScaled(-c, v, |v|);
    assert c * c == (-c) * (-c);
    assert SumSq(Scale(c, v)) == SumSq(Scale(-c, v));
  }

  lemma RayQuotient(n: real, c: real, s: real, dot: real, denom: real)
    requires n > 0.0 && c > 0.0 && dot == s * (c * (n * n)) && denom == n * (c * n)
    ensures denom > 0.0 && dot / denom == s
  {
    PositiveProduct(c, n);
    PositiveProduct(n, c * n);
    assert c * (n * n) == denom;
    QuotientTimes(dot, denom);
    CancelFactor(dot / denom, s, denom);
    CancelFactor(s, dot / denom, denom);
  }

  lemma CosineQuotient(sqrt: real -> real, a: Vector, b: Vector, dot: real, denom: real)
    requires Norm(sqrt, a) * Norm(sqrt, b) == denom && denom != 0.0 && Dot(a, b, Max(|a|, |b|)) == dot
    ensures Cosine(sqrt, a, b) == dot / denom
  {
  }

  lemma DotOnRay(sqrt: real -> real, v: Vector, c: real, n: real)
    requires IsSqrt(sqrt) && n == Norm(sqrt, v)
    ensures Dot(v, Scale(c, v), Max(|v|, |Scale(c, v)|)) == c * (n * n)
  {
    NormSquare(sqrt, v);
    DotWithScaled(c, v, |v|);
  }

  /** On the same ray the cosine is 1. */
  lemma CosineOnRay(sqrt: real -> real, v: Vector, c: real)
    requires IsSqrt(sqrt) && Norm(sqrt, v) != 0.0 && c > 0.0
    ensures Cosine(sqrt, v, Scale(c, v)) == 1.0
  {
    var n := Norm(sqrt, v);
    NormSign(sqrt, v);
    DotOnRay(sqrt, v, c, n);
    NormOfScaled(sqrt, c, v);
    RayQuotient(n, c, 1.0, c * (n * n), n * (c * n));
    CosineQuotient(sqrt, v, Scale(c, v), c * (n * n), n * (c * n));
  }

  /** On the opposite ray it is -1. */
  lemma CosineOnOppositeRay(sqrt: real -> real, v: Vector, c: real)
    requires IsSqrt(sqrt) && Norm(sqrt, v) != 0.0 && c < 0.0
    ensures Cosine(sqrt, v, Scale(c, v)) == -1.0
  {
    var n, m := Norm(sqrt, v), -c;
    NormSign(sqrt, v);
    DotOnRay(sqrt, v, c, n);
    NormOfScaled(sqrt, m, v);
    OppositeNorm(sqrt, c, v);
    Negated(c, n * n, m);
    RayQuotient(n, m, -1.0, c * (n * n), n * (m * n));
    CosineQuotient(sqrt, v, Scale(c, v), c * (n * n), n * (m * n));
  }

  lemma NormSign(sqrt: real -> real, v: Vector)
    requires IsSqrt(sqrt)
    ensures Norm(sqrt, v) >= 0.0
  {
    NormSquare(sqrt, v);
  }

  lemma Negated(c: real, x: real, m: real)
    requires m == -c
    ensures c * x == -1.0 * (m * x)
  {
  }

  /** A vector is as similar to itself as can be. */
  lemma CosineOfSelf(sqrt: real -> real, v: Vector)
    requires IsSqrt(sqrt)
    ensures Cosine(sqrt, v, v) == if Norm(sqrt, v) == 0.0 then 0.0 else 1.0
  {
    if Norm(sqrt, v) != 0.0 {
      assert Scale(1.0, v) == v;
      CosineOnRay(sqrt, v, 1.0);
    }
  }

  lemma {:induction false} DotCommutes(a: Vector, b: Vector, n: nat)
    ensures Dot(a, b, n) == Dot(b, a, n)
  {
    if n > 0 {
      DotCommutes(a, b, n - 1);
    }
  }

  lemma CosineIsSymmetric(sqrt: real -> real, a: Vector, b: Vector)
    ensures Cosine(sqrt, a, b) == Cosine(sqrt, b, a)
  {
    DotCommutes(a, b, Max(|a|, |b|));
  }

  lemma DistanceIsSymmetric(sqrt: real -> real, a: Vector, b: Vector)
    ensures Distance(sqrt, a, b) == Distance(sqrt, b, a)
  {
    var d := Difference(a, b);
    assert Scale(1.0, d) == d;
    forall i | 0 <= i < |d| ensures Difference(b, a)[i] == Scale(-1.0, d)[i] {
      assert At(Difference(b, a), i) == At(b, i) - At(a, i) && At(d, i) == At(a, i) - At(b, i);
    }
    assert Difference(b, a) == Scale(-1.0, d);
    OppositeNorm(sqrt, 1.0, d);
  }

  /** A vector without a basis version counts as of version 0. */
  lemma BasisExactly(v: SemanticVector)
    ensures v.basisVersion == None ==> Basis(v) == 0
    ensures v.basisVersion.Some? ==> v.basisVersion == Some(Basis(v))
  {
  }
}
