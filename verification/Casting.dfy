/** Resonance (vermyth/engine/operations/cast.py), fluid casts and the refinement loop
    of auto_cast (vermyth/engine/operations/casting.py). */
module Casting {
  import opened Reals
  import opened Wrappers
  import opened Schema
  import opened Vectors
  import opened SemanticVectors

  /** What interpolate derives from the anchors near a unit vector. */
  datatype Profile = Profile(ceiling: real, severity: Severity)

  /** The engine an intent is cast with: the registry's basis version, whether the
      composition table has anchors, the anchor blend of a unit vector (softmax over the
      nearest anchors) and the projected intent. */
  datatype Engine = Engine(
    basis: nat, hasAnchors: bool, blend: Vector -> Profile, intent: SemanticVector)

  ghost predicate ValidEngine(e: Engine) {
    forall v :: 0.0 <= e.blend(v).ceiling <= 1.0
  }

  datatype Sigil = Sigil(vector: SemanticVector, profile: Profile)

  datatype Resonance = Resonance(raw: real, adjusted: real)

  function Penalty(s: Severity): real {
    match s
    case NoContradiction => 0.0
    case Soft => 0.18
    case Hard => 0.40
  }

  function Raw(sqrt: real -> real, sigil: Vector, intent: Vector): real {
    (Cosine(sqrt, sigil, intent) + 1.0) / 2.0
  }

  /** The score of a sigil against an intent, by components alone. */
  function ResonanceOf(sqrt: real -> real, sigil: Vector, profile: Profile, intent: Vector): Resonance {
    var raw := Raw(sqrt, sigil, intent);
    var penalized := if raw - Penalty(profile.severity) > 0.0 then raw - Penalty(profile.severity) else 0.0;
    Resonance(raw, Smaller(penalized, profile.ceiling))
  }

  /** compute_resonance: upsamples on a basis mismatch, and the score does not depend on
      it; both scores lie in [0, 1] and the adjusted one under the raw one and the ceiling. */
  method ComputeResonance(sqrt: real -> real, sigil: Sigil, intent: SemanticVector) returns (r: Resonance)
    requires IsSqrt(sqrt) && 0.0 <= sigil.profile.ceiling <= 1.0
    ensures r == ResonanceOf(sqrt, sigil.vector.components, sigil.profile, intent.components)
    ensures 0.0 <= r.adjusted <= r.raw <= 1.0 && r.adjusted <= sigil.profile.ceiling
  {
    var s, i := sigil.vector, intent;
    if Basis(s) != Basis(i) {
      var version, dim := Max(Basis(s), Basis(i)), Max(|s.components|, |i.components|);
      s, i := UpsampleTo(s, version, dim), UpsampleTo(i, version, dim);
    }
    PaddingKeepsCosine(sqrt, sigil.vector.components, s.components, intent.components, i.components);
    var cosine := CosineSimilarity(sqrt, s, i);
    var raw := (cosine.value + 1.0) / 2.0;
    var penalty := Penalty(sigil.profile.severity);
    var penalized := if raw - penalty > 0.0 then raw - penalty else 0.0;
    return Resonance(raw, Smaller(penalized, sigil.profile.ceiling));
  }

  /** verdict_type. */
  function VerdictOf(adjusted: real): VerdictType {
    if adjusted >= 0.75 then Coherent else if adjusted >= 0.45 then Partial else Incoherent
  }

  /** interpolate: the sigil of the normalised vector; fails without anchors or when the
      vector's basis is not the registry's. */
  method Interpolate(sqrt: real -> real, e: Engine, vector: SemanticVector) returns (r: Result<Sigil, string>)
    ensures r.Success? <==> e.hasAnchors && Basis(vector) == e.basis
    ensures r.Success? ==>
      r.value == Sigil(SemanticVector(Unit(sqrt, vector.components), vector.basisVersion),
                       e.blend(Unit(sqrt, vector.components)))
  {
    var unit := Unit(sqrt, vector.components);
    if !e.hasAnchors {
      return Failure("no sigil anchors available for interpolation");
    }
    if Basis(vector) != e.basis {
      return Failure("incompatible basis versions");
    }
    return Success(Sigil(SemanticVector(unit, vector.basisVersion), e.blend(unit)));
  }

  /** The cast whose sigil vector is the unit vector `u`. */
  function CastOn(sqrt: real -> real, e: Engine, u: Vector, id: string, lineage: Option<Lineage>): CastResult {
    var adjusted := UnitScore(sqrt, e, u);
    CastResult(id, VerdictOf(adjusted), adjusted, u, lineage)
  }

  function UnitScore(sqrt: real -> real, e: Engine, u: Vector): real {
    ResonanceOf(sqrt, u, e.blend(u), e.intent.components).adjusted
  }

  /** fluid_cast under a fresh id. */
  method FluidCast(sqrt: real -> real, e: Engine, vector: SemanticVector, id: string)
    returns (r: Result<CastResult, string>)
    requires IsSqrt(sqrt) && ValidEngine(e)
    ensures r.Success? <==> e.hasAnchors && Basis(vector) == e.basis
    ensures r.Success? ==> r.value == CastOn(sqrt, e, Unit(sqrt, vector.components), id, None)
  {
    var sigil := Interpolate(sqrt, e, vector);
    if sigil.Failure? {
      return Failure(sigil.error);
    }
    var score := ComputeResonance(sqrt, sigil.value, e.intent);
    return Success(CastResult(id, VerdictOf(score.adjusted), score.adjusted, sigil.value.vector.components, None));
  }

  function Blend(a: real, current: Vector, target: Vector): (r: Vector)
    ensures |r| == Max(|current|, |target|)
    ensures forall i :: 0 <= i < |r| ==> r[i] == (1.0 - a) * At(current, i) + a * At(target, i)
  {
    seq(Max(|current|, |target|), i requires 0 <= i => (1.0 - a) * At(current, i) + a * At(target, i))
  }

  /** blend_toward: the clamped convex combination, built in a loop, normalised and
      labelled with the registry's basis. */
  method BlendToward(sqrt: real -> real, e: Engine, current: Vector, target: Vector, alpha: real)
    returns (r: SemanticVector)
    ensures r == SemanticVector(Unit(sqrt, Blend(Clamp(alpha, 0.0, 1.0), current, target)), Some(e.basis))
  {
    var a := Clamp(alpha, 0.0, 1.0);
    var dim := Max(|current|, |target|);
    var blended: seq<real> := [];
    for i := 0 to dim
      invariant |blended| == i && forall k :: 0 <= k < i ==> blended[k] == Blend(a, current, target)[k]
    {
      var component := (1.0 - a) * At(current, i) + a * At(target, i);
      assert component == Blend(a, current, target)[i];
      blended := blended + [component];
    }
    assert blended == Blend(a, current, target);
    return SemanticVector(Unit(sqrt, blended), Some(e.basis));
  }

  lemma BlendFactor(a: real, x: real, n: real)
    requires n > 0.0
    ensures (1.0 - a) * x + a * (x / n) == ((1.0 - a) + a * (1.0 / n)) * x
  {
    DivideByProduct(x, n);
    var q := 1.0 / n;
    assert a * (q * x) == (a * q) * x;
    assert (1.0 - a) * x + (a * q) * x == ((1.0 - a) + a * q) * x;
  }

  lemma BlendFactorPositive(a: real, n: real)
    requires 0.0 <= a <= 1.0 && n > 0.0
    ensures (1.0 - a) + a * (1.0 / n) > 0.0
  {
    var q := 1.0 / n;
    assert q > 0.0;
    if a > 0.0 {
      PositiveProduct(a, q);
    }
  }

  /** Blending a vector toward its own unit vector stays on its ray. */
  lemma BlendStaysOnRay(sqrt: real -> real, v: Vector, a: real)
    requires IsSqrt(sqrt) && 0.0 <= a <= 1.0
    ensures Unit(sqrt, Blend(a, v, Unit(sqrt, v))) == Unit(sqrt, v)
  {
    var u, n := Unit(sqrt, v), Norm(sqrt, v);
    var b := Blend(a, v, u);
    UnitIsScaled(sqrt, v);
    if n == 0.0 {
      assert b == v;
    } else {
      var c := (1.0 - a) + a * (1.0 / n);
      BlendFactorPositive(a, n);
      forall i | 0 <= i < |v| ensures b[i] == Scale(c, v)[i] {
        BlendFactor(a, v[i], n);
      }
      assert b == Scale(c, v);
      UnitOfScaled(sqrt, c, v);
    }
  }

  function Zeros(n: nat): Vector {
    seq(n, _ => 0.0)
  }

  /** Element `i` of the chain: a root, then each element the child of the one before it,
      at depth `i`, with no divergence. */
  function ChainLineage(ids: nat -> string, branchId: string, dim: nat, i: nat): Option<Lineage> {
    if i == 0 then None else Some(Lineage(ids(i - 1), i, branchId, Zeros(dim)))
  }

  ghost predicate ElementAt(sqrt: real -> real, e: Engine, u: Vector, ids: nat -> string, branchId: string,
                            chain: seq<CastResult>, i: nat) {
    i < |chain| && chain[i] == CastOn(sqrt, e, u, ids(i), ChainLineage(ids, branchId, |u|, i))
  }

  /** A chain all on the unit vector `u`. */
  ghost predicate IsRayChain(sqrt: real -> real, e: Engine, u: Vector, ids: nat -> string, branchId: string,
                             chain: seq<CastResult>) {
    forall i {:trigger ElementAt(sqrt, e, u, ids, branchId, chain, i)} ::
      0 <= i < |chain| ==> ElementAt(sqrt, e, u, ids, branchId, chain, i)
  }

  lemma ChainGrows(sqrt: real -> real, e: Engine, u: Vector, ids: nat -> string, branchId: string,
                   chain: seq<CastResult>, next: CastResult)
    requires IsRayChain(sqrt, e, u, ids, branchId, chain)
    requires next == CastOn(sqrt, e, u, ids(|chain|), ChainLineage(ids, branchId, |u|, |chain|))
    ensures IsRayChain(sqrt, e, u, ids, branchId, chain + [next])
  {
    forall i: nat | i < |chain + [next]| ensures ElementAt(sqrt, e, u, ids, branchId, chain + [next], i) {
      if i < |chain| {
        assert ElementAt(sqrt, e, u, ids, branchId, chain, i);
      }
    }
  }

  /** The loop's stopping test. */
  predicate Converged(adjusted: real, target: real) {
    VerdictOf(adjusted) == Coherent && adjusted >= target
  }

  /** cast_result_with_lineage for two casts on the same unit vector. */
  lemma LinkOnRay(sqrt: real -> real, e: Engine, u: Vector, ids: nat -> string, branchId: string,
                  chain: seq<CastResult>)
    requires IsRayChain(sqrt, e, u, ids, branchId, chain) && chain != []
    ensures var parent := chain[|chain| - 1];
      && parent.vector == u && parent.castId == ids(|chain| - 1)
      && Difference(u, parent.vector) == Zeros(|u|)
      && (if parent.lineage.Some? then parent.lineage.value.depth + 1 else 1) == |chain|
  {
    assert ElementAt(sqrt, e, u, ids, branchId, chain, |chain| - 1);
    UnchangedDivergence(u);
  }

  /** The cast of one step, linked to the chain's last element if there is one. */
  method CastStep(sqrt: real -> real, e: Engine, ghost u: Vector, current: SemanticVector, ids: nat -> string,
                  branchId: string, chain: seq<CastResult>)
    returns (r: Result<CastResult, string>)
    requires IsSqrt(sqrt) && ValidEngine(e)
    requires IsRayChain(sqrt, e, u, ids, branchId, chain) && Unit(sqrt, current.components) == u
    ensures r.Success? <==> e.hasAnchors && Basis(current) == e.basis
    ensures r.Success? ==>
      r.value == CastOn(sqrt, e, u, ids(|chain|), ChainLineage(ids, branchId, |u|, |chain|))
  {
    var base := FluidCast(sqrt, e, current, ids(|chain|));
    if base.Failure? || chain == [] {
      return base;
    }
    var parent := chain[|chain| - 1];
    var depth := if parent.lineage.Some? then parent.lineage.value.depth + 1 else 1;
    LinkOnRay(sqrt, e, u, ids, branchId, chain);
    return Success(base.value.(lineage :=
      Some(Lineage(parent.castId, depth, branchId, Difference(base.value.vector, parent.vector)))));
  }

  /** The refinement of one step: toward the interpolated sigil, which is on the same ray. */
  method Refine(sqrt: real -> real, e: Engine, ghost u: Vector, current: SemanticVector, alpha: real)
    returns (next: SemanticVector)
    requires IsSqrt(sqrt) && e.hasAnchors && Basis(current) == e.basis
    requires Unit(sqrt, current.components) == u
    ensures Unit(sqrt, next.components) == u && Basis(next) == e.basis
  {
    var fluid := Interpolate(sqrt, e, current);
    next := BlendToward(sqrt, e, current.components, fluid.value.vector.components, alpha);
    BlendStaysOnRay(sqrt, current.components, Clamp(alpha, 0.0, 1.0));
    UnitIsIdempotent(sqrt, current.components);
  }

  /** auto_cast never leaves the ray of its start vector: every element of the chain has
      the same unit vector, score and verdict, so it stops after one step or not before
      `maxDepth`. */
  method AutoCast(sqrt: real -> real, e: Engine, vector: SemanticVector, maxDepth: int, target: real, alpha: real,
                  ids: nat -> string, branchId: string)
    returns (r: Result<(CastResult, seq<CastResult>), string>)
    requires IsSqrt(sqrt) && ValidEngine(e)
    ensures r.Success? <==> maxDepth >= 1 && e.hasAnchors && Basis(vector) == e.basis
    ensures r.Success? ==> IsRayChain(sqrt, e, Unit(sqrt, vector.components), ids, branchId, r.value.1)
    ensures r.Success? ==>
      |r.value.1| == (if Converged(UnitScore(sqrt, e, Unit(sqrt, vector.components)), target) then 1 else maxDepth)
    ensures r.Success? ==> r.value.0 == r.value.1[|r.value.1| - 1]
  {
    ghost var u := Unit(sqrt, vector.components);
    var chain: seq<CastResult> := [];
    var current := vector;
    while |chain| < maxDepth
      invariant chain == [] || |chain| <= maxDepth
      invariant IsRayChain(sqrt, e, u, ids, branchId, chain)
      invariant Unit(sqrt, current.components) == u
      invariant Basis(current) == e.basis <==> Basis(vector) == e.basis
      invariant chain != [] ==> e.hasAnchors && Basis(vector) == e.basis
      invariant chain != [] ==> !Converged(UnitScore(sqrt, e, u), target)
      decreases maxDepth - |chain|
    {
      var step := CastStep(sqrt, e, u, current, ids, branchId, chain);
      if step.Failure? {
        return Failure(step.error);
      }
      var result := step.value;
      ChainGrows(sqrt, e, u, ids, branchId, chain, result);
      chain := chain + [result];
      if result.verdict == Coherent && result.adjusted >= target {
        return Success((result, chain));
      }
      current := Refine(sqrt, e, u, current, alpha);
    }
    if chain == [] {
      return Failure("list index out of range");
    }
    return Success((chain[|chain| - 1], chain));
  }

  lemma UnchangedDivergence(u: Vector)
    ensures Difference(u, u) == Zeros(|u|)
  {
    forall i | 0 <= i < |u| ensures Difference(u, u)[i] == 0.0 {
      assert At(Difference(u, u), i) == At(u, i) - At(u, i);
    }
  }
}
