/** Wards (vermyth/arcane/compiler.py), the policy scorers (vermyth/engine/policy/scorers), the
    rule-based policy (vermyth/engine/policy/rule_based.py) and the decision that joins them
    (vermyth/engine/operations/decisions.py). */
module Policy {
  import opened Reals
  import opened Wrappers
  import opened Schema
  import Casting

  datatype PolicyThresholds = PolicyThresholds(
    allowMin: real, reshapeMin: real, maxDrift: DivergenceStatus,
    weights: map<string, real>, effectRiskMin: Option<real>)

  datatype WardSpec = WardSpec(
    allowMin: Option<real>, reshapeMin: Option<real>, maxDrift: Option<DivergenceStatus>,
    effectRiskMin: Option<real>, weights: Option<map<string, real>>)

  datatype PolicyAction = Allow | Reshape | Deny

  datatype ScoreComponent = ScoreComponent(name: string, value: real, weight: real)

  datatype Effect = Effect(kind: EffectType, reversible: bool)

  /** What a cast and its context show: the verdict follows from the adjusted resonance. */
  datatype Evidence = Evidence(
    adjusted: real, divergence: Option<DivergenceStatus>, narrative: Option<real>, effects: seq<Effect>)

  predicate InUnit(x: real) {
    0.0 <= x <= 1.0
  }

  /** The field constraints of PolicyThresholds. */
  ghost predicate ValidThresholds(t: PolicyThresholds) {
    InUnit(t.allowMin) && InUnit(t.reshapeMin) && (t.effectRiskMin.Some? ==> InUnit(t.effectRiskMin.value))
  }

  /** The field constraints of WardSpec. */
  ghost predicate ValidWard(w: WardSpec) {
    && (w.allowMin.Some? ==> InUnit(w.allowMin.value))
    && (w.reshapeMin.Some? ==> InUnit(w.reshapeMin.value))
    && (w.effectRiskMin.Some? ==> InUnit(w.effectRiskMin.value))
  }

  /** The larger of two optional bounds; an absent one bounds nothing. */
  function Stricter(x: Option<real>, y: Option<real>): Option<real> {
    match (x, y)
    case (None, _) => y
    case (_, None) => x
    case (Some(a), Some(b)) => Some(Larger(a, b))
  }

  function Raised(x: real, y: Option<real>): real {
    if y.Some? then Larger(x, y.value) else x
  }

  /** merge_ward_into_thresholds. */
  function Merge(base: PolicyThresholds, w: WardSpec): PolicyThresholds {
    PolicyThresholds(
      Raised(base.allowMin, w.allowMin),
      Raised(base.reshapeMin, w.reshapeMin),
      if w.maxDrift.Some? then w.maxDrift.value else base.maxDrift,
      if w.weights.Some? then base.weights + w.weights.value else base.weights,
      Stricter(base.effectRiskMin, w.effectRiskMin))
  }

  /** The dict updated field by field. */
  method MergeWard(base: PolicyThresholds, w: WardSpec) returns (d: PolicyThresholds)
    requires ValidThresholds(base) && ValidWard(w)
    ensures d == Merge(base, w) && ValidThresholds(d)
  {
    d := base;
    if w.allowMin.Some? {
      d := d.(allowMin := Larger(d.allowMin, w.allowMin.value));
    }
    if w.reshapeMin.Some? {
      d := d.(reshapeMin := Larger(d.reshapeMin, w.reshapeMin.value));
    }
    if w.maxDrift.Some? {
      d := d.(maxDrift := w.maxDrift.value);
    }
    if w.effectRiskMin.Some? {
      var prev := d.effectRiskMin;
      d := d.(effectRiskMin :=
        Some(if prev.Some? then Larger(prev.value, w.effectRiskMin.value) else w.effectRiskMin.value));
    }
    if w.weights.Some? {
      d := d.(weights := d.weights + w.weights.value);
    }
  }

  // ---- Scores ----

  /** A scorer's weight: one that is unset or 0 counts as 1, a negative one as 0. */
  function WeightOf(weights: map<string, real>, name: string): real {
    var w := if name in weights then weights[name] else 0.0;
    if w == 0.0 then 1.0 else if w < 0.0 then 0.0 else w
  }

  datatype Weights = Weights(resonance: real, divergence: real, narrative: real, effectRisk: real)

  type ScorerWeights = w: Weights |
    w.resonance >= 0.0 && w.divergence >= 0.0 && w.narrative >= 0.0 && w.effectRisk >= 0.0
    witness Weights(1.0, 1.0, 1.0, 1.0)

  /** The weights the scorers end up with. */
  function InForce(weights: map<string, real>): ScorerWeights {
    Weights(WeightOf(weights, "resonance"), WeightOf(weights, "divergence"),
            WeightOf(weights, "narrative"), WeightOf(weights, "effect_risk"))
  }

  function DivergenceValue(status: Option<DivergenceStatus>): real {
    match status
    case None => 1.0
    case Some(Stable) => 1.0
    case Some(Drifting) => 0.5
    case Some(Diverged) => 0.0
  }

  function RiskOf(effect: Effect): real {
    (if effect.kind in {Write, Exec, Network} then 0.35 else if effect.kind == Compute then 0.10 else 0.0)
      + (if effect.reversible then 0.0 else 0.25)
  }

  function Risk(effects: seq<Effect>): (risk: real)
    ensures risk >= 0.0
  {
    if effects == [] then 0.0 else Risk(effects[..|effects| - 1]) + RiskOf(effects[|effects| - 1])
  }

  function EffectValue(effects: seq<Effect>): (value: real)
    ensures 0.0 <= value <= 1.0
  {
    1.0 - Clamp(Risk(effects), 0.0, 1.0)
  }

  /** EffectRiskScorer: the loop over the effects. */
  method ScoreEffectRisk(effects: seq<Effect>, weights: map<string, real>) returns (r: ScoreComponent)
    ensures r == ScoreComponent("effect_risk", EffectValue(effects), WeightOf(weights, "effect_risk"))
  {
    var risk := 0.0;
    for i := 0 to |effects|
      invariant risk == Risk(effects[..i])
    {
      assert effects[..i + 1][..i] == effects[..i];
      var effect := effects[i];
      if effect.kind in {Write, Exec, Network} {
        risk := risk + 0.35;
      } else if effect.kind == Compute {
        risk := risk + 0.10;
      }
      if !effect.reversible {
        risk := risk + 0.25;
      }
    }
    assert effects[..|effects|] == effects;
    r := ScoreComponent("effect_risk", 1.0 - Clamp(risk, 0.0, 1.0), WeightOf(weights, "effect_risk"));
  }

  function Scores(e: Evidence, weights: ScorerWeights): (r: seq<ScoreComponent>)
    ensures |r| == 4
  {
    [ScoreComponent("resonance", Clamp(e.adjusted, 0.0, 1.0), weights.resonance),
     ScoreComponent("divergence", DivergenceValue(e.divergence), weights.divergence),
     ScoreComponent("narrative", if e.narrative == None then 0.5 else Clamp(e.narrative.value, 0.0, 1.0),
                    weights.narrative),
     ScoreComponent("effect_risk", EffectValue(e.effects), weights.effectRisk)]
  }

  function TotalWeight(weights: ScorerWeights): (total: real)
    ensures total >= 0.0
  {
    weights.resonance + weights.divergence
      + weights.narrative + weights.effectRisk
  }

  function WeightedValue(scores: seq<ScoreComponent>): real
    requires |scores| == 4
  {
    scores[0].value * scores[0].weight + scores[1].value * scores[1].weight
      + scores[2].value * scores[2].weight + scores[3].value * scores[3].weight
  }

  /** `sum(...) or 1.0`. */
  function Divisor(weights: ScorerWeights): (d: real)
    ensures d > 0.0
  {
    if TotalWeight(weights) == 0.0 then 1.0 else TotalWeight(weights)
  }

  /** The weighted mean of the scores; 0 when all weights are 0. */
  function Aggregate(e: Evidence, weights: ScorerWeights): real {
    WeightedValue(Scores(e, weights)) / Divisor(weights)
  }

  // ---- Decisions ----

  /** The first score component of a name. */
  function Component(scores: seq<ScoreComponent>, name: string): Option<ScoreComponent> {
    if scores == [] then None
    else if scores[0].name == name then Some(scores[0])
    else Component(scores[1..], name)
  }

  predicate RiskGateFires(scores: seq<ScoreComponent>, t: PolicyThresholds) {
    var risk := Component(scores, "effect_risk");
    t.effectRiskMin.Some? && risk.Some? && risk.value.weight > 0.0 && risk.value.value < t.effectRiskMin.value
  }

  predicate DriftOk(divergence: Option<DivergenceStatus>, t: PolicyThresholds) {
    divergence == None || divergence == Some(Stable) || divergence == Some(t.maxDrift)
  }

  /** What a decision is asked for with. */
  datatype Assessment = Assessment(
    verdict: VerdictType, adjusted: real, divergence: Option<DivergenceStatus>,
    scores: seq<ScoreComponent>, aggregate: real)

  /** RuleBasedPolicyModel.decide, the action. */
  function Rule(a: Assessment, t: PolicyThresholds): PolicyAction {
    if RiskGateFires(a.scores, t) then Deny
    else if a.verdict == Incoherent || a.divergence == Some(Diverged) then Deny
    else if a.verdict == Coherent && a.adjusted >= t.allowMin && DriftOk(a.divergence, t)
      && a.aggregate >= t.allowMin then
      Allow
    else Reshape
  }

  function Assess(e: Evidence, weights: ScorerWeights): Assessment {
    Assessment(Casting.VerdictOf(e.adjusted), e.adjusted, e.divergence, Scores(e, weights), Aggregate(e, weights))
  }

  /** No scorer's weight exceeds the 5 a score component admits. */
  predicate Weighable(weights: ScorerWeights) {
    weights.resonance <= 5.0 && weights.divergence <= 5.0 && weights.narrative <= 5.0 && weights.effectRisk <= 5.0
  }

  /** The decision under the thresholds, which also weigh the scores; None where a weight is
      out of bounds and building the scores raises. */
  function Decide(e: Evidence, t: PolicyThresholds): Option<PolicyAction> {
    if !Weighable(InForce(t.weights)) then None
    else Some(Rule(Assess(e, InForce(t.weights)), t))
  }

  function Permissiveness(a: PolicyAction): nat {
    match a
    case Deny => 0
    case Reshape => 1
    case Allow => 2
  }

  predicate NoLooser(strict: Option<PolicyAction>, base: Option<PolicyAction>) {
    strict.Some? && base.Some? ==> Permissiveness(strict.value) <= Permissiveness(base.value)
  }

  ghost predicate NeverLooser(strict: PolicyThresholds, base: PolicyThresholds) {
    forall e :: NoLooser(Decide(e, strict), Decide(e, base))
  }

  // ---- Wards that keep the weights ----

  /** The ward changes no weight that a scorer ends up with. */
  predicate KeepsWeights(base: PolicyThresholds, w: WardSpec) {
    InForce(Merge(base, w).weights) == InForce(base.weights)
  }

  /** The aggregate of a drifting cast whose other scores are perfect. */
  function DriftingBest(weights: ScorerWeights): real {
    (weights.resonance + 0.5 * weights.divergence + weights.narrative + weights.effectRisk) / Divisor(weights)
  }

  /** The ward tolerates drifting where the base did not, and the merged bound leaves room for
      a drifting cast to be allowed. */
  predicate LoosensDrift(base: PolicyThresholds, w: WardSpec) {
    && w.maxDrift == Some(Drifting) && base.maxDrift != Drifting
    && Weighable(InForce(base.weights))
    && DriftingBest(InForce(base.weights)) >= Merge(base, w).allowMin
  }

  lemma ScaledDown(x: real, w: real)
    requires x <= 1.0 && w >= 0.0
    ensures x * w <= w
  {
    ProductsOrder(w, x, 1.0);
  }

  /** Perfect scores, but for the second, are best. */
  lemma PerfectIsBest(s: seq<ScoreComponent>)
    requires |s| == 4 && s[0].value <= 1.0 && s[2].value <= 1.0 && s[3].value <= 1.0
    requires s[0].weight >= 0.0 && s[2].weight >= 0.0 && s[3].weight >= 0.0
    ensures WeightedValue(s) <= s[0].weight + s[1].value * s[1].weight + s[2].weight + s[3].weight
  {
    ScaledDown(s[0].value, s[0].weight);
    ScaledDown(s[2].value, s[2].weight);
    ScaledDown(s[3].value, s[3].weight);
  }

  lemma QuotientsOrder(x: real, y: real, d: real)
    requires x <= y && d > 0.0
    ensures x / d <= y / d
  {
    QuotientTimes(y, d);
    QuotientAtMost(x, d, y / d);
  }

  lemma DriftingValue(e: Evidence, weights: ScorerWeights)
    requires e.divergence == Some(Drifting)
    ensures WeightedValue(Scores(e, weights))
      <= weights.resonance + 0.5 * weights.divergence
         + weights.narrative + weights.effectRisk
  {
    var s := Scores(e, weights);
    PerfectIsBest(s);
    assert s[1].value == 0.5;
  }

  /** No drifting cast scores better. */
  lemma DriftingAtMostBest(e: Evidence, weights: ScorerWeights)
    requires e.divergence == Some(Drifting)
    ensures Aggregate(e, weights) <= DriftingBest(weights)
  {
    DriftingValue(e, weights);
    var best := weights.resonance + 0.5 * weights.divergence
      + weights.narrative + weights.effectRisk;
    QuotientsOrder(WeightedValue(Scores(e, weights)), best, Divisor(weights));
  }

  /** On one assessment a merged ward is no looser, unless it tolerates the drift. */
  lemma RuleIsNoLooser(a: Assessment, base: PolicyThresholds, w: WardSpec)
    requires a.divergence == Some(Drifting) && w.maxDrift == Some(Drifting) && base.maxDrift != Drifting ==>
      a.aggregate < Merge(base, w).allowMin
    ensures Permissiveness(Rule(a, Merge(base, w))) <= Permissiveness(Rule(a, base))
  {
    var merged := Merge(base, w);
    assert RiskGateFires(a.scores, base) ==> RiskGateFires(a.scores, merged);
    assert merged.allowMin >= base.allowMin;
    match a.divergence {
      case None =>
      case Some(Stable) =>
      case Some(Drifting) => assert merged.maxDrift == Drifting
        ==> w.maxDrift == Some(Drifting) || base.maxDrift == Drifting;
      case Some(Diverged) =>
    }
  }

  lemma MergedIsNoLooser(base: PolicyThresholds, w: WardSpec, e: Evidence)
    requires KeepsWeights(base, w) && !LoosensDrift(base, w)
    ensures NoLooser(Decide(e, Merge(base, w)), Decide(e, base))
  {
    var weights := InForce(base.weights);
    if Weighable(weights) {
      if e.divergence == Some(Drifting) {
        DriftingAtMostBest(e, weights);
      }
      RuleIsNoLooser(Assess(e, weights), base, w);
    }
  }

  /** The witness: a perfect cast but for its drift. */
  lemma PerfectDrifting(t: PolicyThresholds) returns (e: Evidence)
    ensures e == Evidence(1.0, Some(Drifting), Some(1.0), [])
    ensures Aggregate(e, InForce(t.weights)) == DriftingBest(InForce(t.weights))
    ensures ValidThresholds(t) ==> !RiskGateFires(Scores(e, InForce(t.weights)), t)
  {
    e := Evidence(1.0, Some(Drifting), Some(1.0), []);
    EffectComponent(e, InForce(t.weights));
  }

  lemma EffectComponent(e: Evidence, weights: ScorerWeights)
    ensures Component(Scores(e, weights), "effect_risk")
      == Some(ScoreComponent("effect_risk", EffectValue(e.effects), weights.effectRisk))
  {
    var s := Scores(e, weights);
    assert s[1..][1..] == s[2..] && s[2..][1..] == s[3..];
    assert Component(s[1..], "effect_risk") == Component(s[2..], "effect_risk");
    assert Component(s[2..], "effect_risk") == Component(s[3..], "effect_risk");
  }

  /** A ward that keeps the weights never makes a decision more permissive, exactly unless it
      tolerates drifting where the base did not and some drifting cast reaches the bound. */
  lemma WardsTightenExactly(base: PolicyThresholds, w: WardSpec)
    requires ValidThresholds(base) && ValidWard(w) && KeepsWeights(base, w)
    ensures NeverLooser(Merge(base, w), base) <==> !LoosensDrift(base, w)
  {
    if LoosensDrift(base, w) {
      var e := PerfectDrifting(base);
      EffectComponent(e, InForce(base.weights));
      assert Decide(e, base) == Some(Reshape) && Decide(e, Merge(base, w)) == Some(Allow);
      assert !NoLooser(Decide(e, Merge(base, w)), Decide(e, base));
    } else {
      forall e ensures NoLooser(Decide(e, Merge(base, w)), Decide(e, base)) {
        MergedIsNoLooser(base, w, e);
      }
    }
  }

  /** A ward that leaves the drift bound and the weights unset only tightens. */
  lemma WardsTighten(base: PolicyThresholds, w: WardSpec)
    requires w.maxDrift == None && w.weights == None
    ensures NeverLooser(Merge(base, w), base)
  {
    forall e ensures NoLooser(Decide(e, Merge(base, w)), Decide(e, base)) {
      MergedIsNoLooser(base, w, e);
    }
  }

  // ---- Wards that change the weights ----

  /** Every DENY stays a DENY, or raises. */
  ghost predicate DenialsStand(strict: PolicyThresholds, base: PolicyThresholds) {
    forall e :: Decide(e, base) == Some(Deny) && Decide(e, strict).Some? ==> Decide(e, strict) == Some(Deny)
  }

  /** The ward gives the effect-risk score a negative weight, which switches its gate off. */
  predicate DropsRiskGate(base: PolicyThresholds, w: WardSpec) {
    && base.effectRiskMin.Some? && base.effectRiskMin.value > 0.0
    && InForce(base.weights).effectRisk > 0.0
    && InForce(Merge(base, w).weights).effectRisk == 0.0
  }

  lemma WriteRisk(n: nat)
    ensures Risk(seq(n, _ => Effect(Write, true))) == n as real * 0.35
  {
    if n > 0 {
      assert seq(n, _ => Effect(Write, true))[..n - 1] == seq(n - 1, _ => Effect(Write, true));
      WriteRisk(n - 1);
    }
  }

  /** Only the gate, the verdict and divergence deny. */
  lemma DeniedExactly(a: Assessment, t: PolicyThresholds)
    ensures Rule(a, t) == Deny <==>
      RiskGateFires(a.scores, t) || a.verdict == Incoherent || a.divergence == Some(Diverged)
  {
  }

  /** With the gate switched off, an input it denied for its effects alone is denied no more. */
  lemma GateSwitchedOff(base: PolicyThresholds, w: WardSpec, e: Evidence)
    requires DropsRiskGate(base, w)
    requires Weighable(InForce(base.weights)) && Weighable(InForce(Merge(base, w).weights))
    requires e.adjusted == 1.0 && e.divergence == None && EffectValue(e.effects) == 0.0
    ensures Decide(e, base) == Some(Deny) && Decide(e, Merge(base, w)).Some? && Decide(e, Merge(base, w)) != Some(Deny)
  {
    EffectComponent(e, InForce(base.weights));
    EffectComponent(e, InForce(Merge(base, w).weights));
    DeniedExactly(Assess(e, InForce(base.weights)), base);
    DeniedExactly(Assess(e, InForce(Merge(base, w).weights)), Merge(base, w));
  }

  /** Whatever a ward does to the weights, it turns no DENY into anything else, exactly unless
      it switches an effect gate off. */
  lemma DenialsStandExactly(base: PolicyThresholds, w: WardSpec)
    requires ValidThresholds(base) && ValidWard(w)
    requires Weighable(InForce(base.weights)) && Weighable(InForce(Merge(base, w).weights))
    ensures DenialsStand(Merge(base, w), base) <==> !DropsRiskGate(base, w)
  {
    var merged := Merge(base, w);
    if DropsRiskGate(base, w) {
      var e := Evidence(1.0, None, None, seq(3, _ => Effect(Write, true)));
      WriteRisk(3);
      GateSwitchedOff(base, w, e);
    } else {
      forall e | Decide(e, base) == Some(Deny) && Decide(e, merged).Some? ensures Decide(e, merged) == Some(Deny) {
      EffectComponent(e, InForce(base.weights));
        EffectComponent(e, InForce(merged.weights));
        DeniedExactly(Assess(e, InForce(base.weights)), base);
        DeniedExactly(Assess(e, InForce(merged.weights)), merged);
      }
    }
  }

  /** The default thresholds. */
  function Defaults(): PolicyThresholds {
    PolicyThresholds(0.75, 0.45, Drifting,
                     map["resonance" := 0.5, "divergence" := 0.2, "narrative" := 0.1, "effect_risk" := 0.2], None)
  }

  /** A ward that only weighs resonance more, over the defaults, turns a RESHAPE into an ALLOW. */
  lemma WeightsCanLoosen()
    ensures var w := WardSpec(None, None, None, None, Some(map["resonance" := 5.0]));
      var e := Evidence(0.8, None, None, [Effect(Write, true), Effect(Write, true)]);
      && Decide(e, Defaults()) == Some(Reshape)
      && Decide(e, Merge(Defaults(), w)) == Some(Allow)
      && !NeverLooser(Merge(Defaults(), w), Defaults())
  {
    var w := WardSpec(None, None, None, None, Some(map["resonance" := 5.0]));
    var e := Evidence(0.8, None, None, [Effect(Write, true), Effect(Write, true)]);
    var base, merged := Defaults(), Merge(Defaults(), w);
    assert e.effects == seq(2, _ => Effect(Write, true));
    WriteRisk(2);
    assert Aggregate(e, InForce(base.weights)) == 0.71;
    assert Aggregate(e, InForce(merged.weights)) == 4.31 / 5.5;
    assert !NoLooser(Decide(e, merged), Decide(e, base));
  }

  // ---- The algebra of wards ----

  predicate Numeric(w: WardSpec) {
    w.maxDrift == None && w.weights == None
  }

  /** The ward that merges like `v` and then `w`, when both are numeric. */
  function JoinWards(v: WardSpec, w: WardSpec): WardSpec {
    WardSpec(Stricter(v.allowMin, w.allowMin), Stricter(v.reshapeMin, w.reshapeMin), None,
             Stricter(v.effectRiskMin, w.effectRiskMin), None)
  }

  /** Merging a ward twice is merging it once. */
  lemma MergeIsIdempotent(base: PolicyThresholds, w: WardSpec)
    ensures Merge(Merge(base, w), w) == Merge(base, w)
  {
    if w.weights.Some? {
      assert base.weights + w.weights.value + w.weights.value == base.weights + w.weights.value;
    }
  }

  /** Numeric wards form a commutative, associative, idempotent algebra that acts by merging. */
  lemma NumericWardsAct(base: PolicyThresholds, u: WardSpec, v: WardSpec, w: WardSpec)
    requires Numeric(u) && Numeric(v) && Numeric(w)
    ensures Merge(Merge(base, v), w) == Merge(base, JoinWards(v, w)) == Merge(Merge(base, w), v)
    ensures JoinWards(JoinWards(u, v), w) == JoinWards(u, JoinWards(v, w))
    ensures JoinWards(v, w) == JoinWards(w, v) && JoinWards(w, w) == w
  {
  }

  /** Two wards disagree where both set the drift bound, or both weigh a scorer, differently. */
  ghost predicate Compatible(v: WardSpec, w: WardSpec) {
    && (v.maxDrift.Some? && w.maxDrift.Some? ==> v.maxDrift == w.maxDrift)
    && (v.weights.Some? && w.weights.Some? ==>
          forall k :: k in v.weights.value && k in w.weights.value ==> v.weights.value[k] == w.weights.value[k])
  }

  /** The order of merging two wards matters exactly when they are incompatible. */
  lemma WardsCommuteExactly(base: PolicyThresholds, v: WardSpec, w: WardSpec)
    ensures Merge(Merge(base, v), w) == Merge(Merge(base, w), v) <==> Compatible(v, w)
  {
    var vw, wv := Merge(Merge(base, v), w), Merge(Merge(base, w), v);
    if v.weights.Some? && w.weights.Some? {
      var a, b := v.weights.value, w.weights.value;
      if vw.weights == wv.weights {
        forall k | k in a && k in b ensures a[k] == b[k] {
          assert vw.weights[k] == b[k] && wv.weights[k] == a[k];
        }
      } else if Compatible(v, w) {
        assert false;
      }
    }
  }
}
