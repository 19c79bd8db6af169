/** What a score, a verdict and a refined chain are, told by the numbers. */
module CastingLaws {
  import opened Reals
  import opened Wrappers
  import opened Schema
  import opened Vectors
  import opened SemanticVectors
  import opened Casting

  /** The two bounds of the verdicts. */
  lemma VerdictExactly(adjusted: real)
    ensures VerdictOf(adjusted) == Coherent <==> adjusted >= 0.75
    ensures VerdictOf(adjusted) == Incoherent <==> adjusted < 0.45
    ensures VerdictOf(adjusted) == Partial <==> 0.45 <= adjusted < 0.75
  {
  }

  // ---- The raw score ----

  /** The raw score is 1 on the ray of the intent, 0 on the opposite ray and a half against a
      null vector. */
  lemma RawOnRays(sqrt: real -> real, v: Vector, c: real, intent: Vector)
    requires IsSqrt(sqrt) && intent == Scale(c, v)
    ensures Norm(sqrt, v) != 0.0 && c > 0.0 ==> Raw(sqrt, v, intent) == 1.0
    ensures Norm(sqrt, v) != 0.0 && c < 0.0 ==> Raw(sqrt, v, intent) == 0.0
    ensures Norm(sqrt, v) == 0.0 ==> Raw(sqrt, v, intent) == 0.5
  {
    if Norm(sqrt, v) != 0.0 && c > 0.0 {
      CosineOnRay(sqrt, v, c);
    }
    if Norm(sqrt, v) != 0.0 && c < 0.0 {
      CosineOnOppositeRay(sqrt, v, c);
    }
  }

  /** The more similar of two sigils has the greater raw score. */
  lemma RawFollowsCosine(sqrt: real -> real, a: Vector, b: Vector, intent: Vector)
    ensures Raw(sqrt, a, intent) < Raw(sqrt, b, intent) <==> Cosine(sqrt, a, intent) < Cosine(sqrt, b, intent)
  {
  }

  // ---- The adjusted score ----

  /** The adjusted score: what the raw one has above the penalty of the contradiction, but no
      more than the ceiling. */
  lemma AdjustedExactly(sqrt: real -> real, sigil: Vector, profile: Profile, intent: Vector)
    requires 0.0 <= profile.ceiling <= 1.0
    ensures var r := ResonanceOf(sqrt, sigil, profile, intent);
      var penalty := if profile.severity == Hard then 0.40 else if profile.severity == Soft then 0.18 else 0.0;
      && r.raw == Raw(sqrt, sigil, intent)
      && (r.raw <= penalty ==> r.adjusted == 0.0)
      && (penalty < r.raw <= penalty + profile.ceiling ==> r.adjusted == r.raw - penalty)
      && (r.raw >= penalty + profile.ceiling ==> r.adjusted == profile.ceiling)
  {
  }

  /** Under a hard contradiction, or a ceiling below 0.75, no cast is coherent. */
  lemma NeverCoherent(sqrt: real -> real, sigil: Vector, profile: Profile, intent: Vector)
    requires IsSqrt(sqrt) && (profile.severity == Hard || profile.ceiling < 0.75)
    ensures VerdictOf(ResonanceOf(sqrt, sigil, profile, intent).adjusted) != Coherent
  {
    CosineInRange(sqrt, sigil, intent);
  }

  /** A cast on the ray of its intent is coherent exactly if neither forbids it; under a soft
      contradiction, a cast is coherent only with a cosine of at least 0.86. */
  lemma AlignedCast(sqrt: real -> real, v: Vector, c: real, profile: Profile)
    requires IsSqrt(sqrt) && Norm(sqrt, v) != 0.0 && c > 0.0
    ensures VerdictOf(ResonanceOf(sqrt, v, profile, Scale(c, v)).adjusted) == Coherent
       <==> profile.severity != Hard && profile.ceiling >= 0.75
  {
    RawOnRays(sqrt, v, c, Scale(c, v));
  }

  lemma SoftNeedsCosine(sqrt: real -> real, sigil: Vector, profile: Profile, intent: Vector)
    requires profile.severity == Soft && profile.ceiling >= 0.75
    ensures VerdictOf(ResonanceOf(sqrt, sigil, profile, intent).adjusted) == Coherent
       <==> Cosine(sqrt, sigil, intent) >= 0.86
  {
  }

  // ---- Blending ----

  /** A blend begins at the one vector and ends at the other. */
  lemma BlendEnds(v: Vector, w: Vector)
    ensures SamePadded(Blend(0.0, v, w), v) && SamePadded(Blend(1.0, v, w), w)
  {
    forall i: nat ensures At(Blend(0.0, v, w), i) == At(v, i) && At(Blend(1.0, v, w), i) == At(w, i) {
      if i < Max(|v|, |w|) {
        assert Blend(0.0, v, w)[i] == At(v, i);
        assert Blend(1.0, v, w)[i] == At(w, i);
      }
    }
  }

  // ---- The refined chain ----

  /** The chain's fields: ids in order, one vector, score and verdict; the first cast a root, and
      each other one the child of the one before it, one deeper, at no distance from it. */
  lemma ChainExactly(sqrt: real -> real, e: Engine, u: Vector, ids: nat -> string, branchId: string,
                     chain: seq<CastResult>, i: nat)
    requires IsRayChain(sqrt, e, u, ids, branchId, chain) && i < |chain|
    ensures chain[i].castId == ids(i) && chain[i].vector == u
    ensures chain[i].adjusted == chain[0].adjusted && chain[i].verdict == chain[0].verdict
    ensures chain[i].verdict == Coherent <==> chain[i].adjusted >= 0.75
    ensures chain[i].verdict == Incoherent <==> chain[i].adjusted < 0.45
    ensures i == 0 ==> chain[i].lineage == None
    ensures i > 0 ==>
      && chain[i].lineage.Some?
      && chain[i].lineage.value.parentCastId == chain[i - 1].castId
      && chain[i].lineage.value.depth == i && chain[i].lineage.value.branchId == branchId
      && chain[i].lineage.value.divergence == Difference(chain[i].vector, chain[i - 1].vector)
  {
    assert ElementAt(sqrt, e, u, ids, branchId, chain, 0) && ElementAt(sqrt, e, u, ids, branchId, chain, i);
    if i > 0 {
      assert ElementAt(sqrt, e, u, ids, branchId, chain, i - 1);
      UnchangedDivergence(u);
    }
  }

  /** The loop stops at the first cast when it scores 0.75 and the target. */
  lemma ConvergedExactly(adjusted: real, target: real)
    ensures Converged(adjusted, target) <==> adjusted >= 0.75 && adjusted >= target
  {
  }

  /** The score of the chain is that of the start vector's direction against the intent: on the
      intent's ray the raw score is 1, whatever the lengths of the two vectors. */
  lemma StartOnRay(sqrt: real -> real, e: Engine, v: Vector, c: real)
    requires IsSqrt(sqrt) && Norm(sqrt, v) != 0.0 && c > 0.0 && e.intent.components == Scale(c, v)
    ensures Raw(sqrt, Unit(sqrt, v), e.intent.components) == 1.0
  {
    var u, n := Unit(sqrt, v), Norm(sqrt, v);
    UnitIsScaled(sqrt, v);
    UnitHasNormOne(sqrt, v);
    var d := c * n;
    PositiveProduct(c, n);
    forall i | 0 <= i < |v| ensures Scale(d, u)[i] == Scale(c, v)[i] {
      BackToScale(c, n, v[i]);
      assert u[i] == v[i] / n;
    }
    assert Scale(d, u) == Scale(c, v);
    RawOnRays(sqrt, u, d, Scale(c, v));
  }

  /** Every cast of the chain is scored as its vector is against the intent; started on the ray of
      the intent, it is coherent exactly if what the anchors give the vector allows it. */
  lemma ChainScores(sqrt: real -> real, e: Engine, v: Vector, ids: nat -> string, branchId: string,
                    chain: seq<CastResult>, i: nat, c: real)
    requires IsSqrt(sqrt) && IsRayChain(sqrt, e, Unit(sqrt, v), ids, branchId, chain) && i < |chain|
    ensures chain[i].adjusted
         == ResonanceOf(sqrt, chain[i].vector, e.blend(chain[i].vector), e.intent.components).adjusted
    ensures Norm(sqrt, v) != 0.0 && c > 0.0 && e.intent.components == Scale(c, v) ==>
      (chain[i].verdict == Coherent <==>
       e.blend(chain[i].vector).severity != Hard && e.blend(chain[i].vector).ceiling >= 0.75)
  {
    assert ElementAt(sqrt, e, Unit(sqrt, v), ids, branchId, chain, i);
    if Norm(sqrt, v) != 0.0 && c > 0.0 && e.intent.components == Scale(c, v) {
      StartOnRay(sqrt, e, v, c);
    }
  }

  lemma BackToScale(c: real, n: real, x: real)
    requires n > 0.0
    ensures (c * n) * (x / n) == c * x
  {
    QuotientTimes(x, n);
    Associate(c, n, x / n);
  }

  lemma Associate(a: real, b: real, c: real)
    ensures (a * b) * c == a * (c * b)
  {
  }
}
