/** What decides, told by the numbers: the scores, the merged thresholds, and the decision they
    give; and that a better cast is never decided more strictly. */
module PolicyLaws {
  import opened Reals
  import opened Wrappers
  import opened Schema
  import opened Policy
  import Casting

  // ---- Weights and scores ----

  /** The weight in force for a name: an absent or zero weight counts as one, a negative one as
      none, and any other as it stands. */
  ghost predicate Weighs(weights: map<string, real>, name: string, w: real) {
    && (name !in weights ==> w == 1.0)
    && (name in weights && weights[name] == 0.0 ==> w == 1.0)
    && (name in weights && weights[name] < 0.0 ==> w == 0.0)
    && (name in weights && weights[name] > 0.0 ==> w == weights[name])
  }

  lemma InForceExactly(weights: map<string, real>)
    ensures var w := InForce(weights);
      && Weighs(weights, "resonance", w.resonance) && Weighs(weights, "divergence", w.divergence)
      && Weighs(weights, "narrative", w.narrative) && Weighs(weights, "effect_risk", w.effectRisk)
  {
  }

  lemma {:induction false} RiskConcat(a: seq<Effect>, b: seq<Effect>)
    ensures Risk(a + b) == Risk(a) + Risk(b)
  {
    if b == [] {
      assert a + b == a;
    } else {
      var front, last := b[..|b| - 1], b[|b| - 1];
      RiskConcat(a, front);
      assert (a + b)[..|a + b| - 1] == a + front;
    }
  }

  /** What one effect risks. */
  lemma RiskOfOne(effect: Effect)
    ensures effect.kind in {Write, Exec, Network} ==> Risk([effect]) == if effect.reversible then 0.35 else 0.60
    ensures effect.kind == Compute ==> Risk([effect]) == if effect.reversible then 0.10 else 0.35
    ensures effect.kind !in {Write, Exec, Network, Compute} ==>
      Risk([effect]) == if effect.reversible then 0.0 else 0.25
    ensures Risk([]) == 0.0
  {
    assert [effect][..0] == [];
  }

  /** The value of a list of effects: what its risk leaves of one, and no less than nothing. */
  lemma EffectValueExactly(effects: seq<Effect>)
    ensures Risk(effects) <= 1.0 ==> EffectValue(effects) == 1.0 - Risk(effects)
    ensures Risk(effects) >= 1.0 ==> EffectValue(effects) == 0.0
  {
  }

  ghost predicate DivergenceScores(status: Option<DivergenceStatus>, x: real) {
    && (status == None || status == Some(Stable) ==> x == 1.0)
    && (status == Some(Drifting) ==> x == 0.5)
    && (status == Some(Diverged) ==> x == 0.0)
  }

  ghost predicate NarrativeScores(narrative: Option<real>, x: real) {
    && (narrative == None ==> x == 0.5)
    && (narrative.Some? && InUnit(narrative.value) ==> x == narrative.value)
    && (narrative.Some? && narrative.value < 0.0 ==> x == 0.0)
    && (narrative.Some? && narrative.value > 1.0 ==> x == 1.0)
  }

  lemma MeanOrNothing(value: real, total: real, divisor: real, mean: real)
    requires divisor == (if total == 0.0 then 1.0 else total) && mean == value / divisor
    requires total == 0.0 ==> value == 0.0
    ensures if total == 0.0 then mean == 0.0 else mean * total == value
  {
    QuotientTimes(value, divisor);
  }

  lemma TimesNothing(x: real, w: real)
    requires w == 0.0
    ensures x * w == 0.0
  {
  }

  lemma NoWeight(weights: ScorerWeights)
    requires TotalWeight(weights) == 0.0
    ensures weights.resonance == 0.0 && weights.divergence == 0.0
    ensures weights.narrative == 0.0 && weights.effectRisk == 0.0
  {
  }

  ghost function ValueUnder(a: real, b: real, c: real, d: real, weights: ScorerWeights): real {
    a * weights.resonance + b * weights.divergence + c * weights.narrative + d * weights.effectRisk
  }

  ghost predicate IsMean(mean: real, value: real, total: real) {
    if total == 0.0 then mean == 0.0 else mean * total == value
  }

  ghost predicate ScoredAs(s: seq<ScoreComponent>, a: real, b: real, c: real, d: real, weights: ScorerWeights) {
    && |s| == 4
    && s[0].value == a && s[1].value == b && s[2].value == c && s[3].value == d
    && s[0].weight == weights.resonance && s[1].weight == weights.divergence
    && s[2].weight == weights.narrative && s[3].weight == weights.effectRisk
  }

  lemma ScoresAre(e: Evidence, weights: ScorerWeights, divergence: real, narrative: real)
    requires InUnit(e.adjusted)
    requires DivergenceScores(e.divergence, divergence) && NarrativeScores(e.narrative, narrative)
    ensures ScoredAs(Scores(e, weights), e.adjusted, divergence, narrative, EffectValue(e.effects), weights)
  {
  }

  lemma ValueOfScores(s: seq<ScoreComponent>, a: real, b: real, c: real, d: real, weights: ScorerWeights)
    requires ScoredAs(s, a, b, c, d, weights)
    ensures WeightedValue(s) == ValueUnder(a, b, c, d, weights)
  {
  }

  /** The aggregate is the mean of the four scores under the four weights. */
  lemma AggregateIsMean(e: Evidence, weights: ScorerWeights, divergence: real, narrative: real)
    requires InUnit(e.adjusted)
    requires DivergenceScores(e.divergence, divergence) && NarrativeScores(e.narrative, narrative)
    ensures IsMean(
      Aggregate(e, weights),
      ValueUnder(e.adjusted, divergence, narrative, EffectValue(e.effects), weights),
      weights.resonance + weights.divergence + weights.narrative + weights.effectRisk)
  {
    var value := ValueUnder(e.adjusted, divergence, narrative, EffectValue(e.effects), weights);
    ScoresAre(e, weights, divergence, narrative);
    ValueOfScores(Scores(e, weights), e.adjusted, divergence, narrative, EffectValue(e.effects), weights);
    NothingWeighed(e.adjusted, divergence, narrative, EffectValue(e.effects), weights);
    MeanOrNothing(value, TotalWeight(weights), Divisor(weights), Aggregate(e, weights));
  }

  lemma NothingWeighed(a: real, b: real, c: real, d: real, weights: ScorerWeights)
    ensures TotalWeight(weights) == 0.0 ==> ValueUnder(a, b, c, d, weights) == 0.0
  {
    if TotalWeight(weights) == 0.0 {
      NoWeight(weights);
      TimesNothing(a, weights.resonance);
      TimesNothing(b, weights.divergence);
      TimesNothing(c, weights.narrative);
      TimesNothing(d, weights.effectRisk);
    }
  }

  // ---- The decision ----

  /** The effects of a cast risk more than the thresholds allow. */
  ghost predicate TooRisky(e: Evidence, t: PolicyThresholds) {
    && t.effectRiskMin.Some? && InForce(t.weights).effectRisk > 0.0
    && EffectValue(e.effects) < t.effectRiskMin.value
  }

  lemma GateExactly(e: Evidence, t: PolicyThresholds)
    ensures RiskGateFires(Scores(e, InForce(t.weights)), t) <==> TooRisky(e, t)
  {
    EffectComponent(e, InForce(t.weights));
  }

  /** The action from the numbers: DENY exactly for too risky effects, a resonance below 0.45 or
      a diverged cast; ALLOW exactly for a cast that is not denied, whose resonance reaches 0.75
      and the bound, whose divergence is absent, stable or the worst one tolerated, and whose
      aggregate reaches the bound. */
  ghost predicate DecidedBy(action: PolicyAction, risky: bool, adjusted: real, divergence: Option<DivergenceStatus>,
                            aggregate: real, allowMin: real, maxDrift: DivergenceStatus)
  {
    var denied := risky || adjusted < 0.45 || divergence == Some(Diverged);
    var allowed := adjusted >= 0.75 && adjusted >= allowMin
      && divergence in {None, Some(Stable), Some(maxDrift)} && aggregate >= allowMin;
    && (action == Deny <==> denied)
    && (action == Allow <==> !denied && allowed)
    && (action == Reshape <==> !denied && !allowed)
  }

  lemma RuleExactly(a: Assessment, t: PolicyThresholds, risky: bool)
    requires (RiskGateFires(a.scores, t) <==> risky) && a.verdict == Casting.VerdictOf(a.adjusted)
    ensures DecidedBy(Rule(a, t), risky, a.adjusted, a.divergence, a.aggregate, t.allowMin, t.maxDrift)
  {
  }

  ghost predicate TooHeavy(w: Weights) {
    w.resonance > 5.0 || w.divergence > 5.0 || w.narrative > 5.0 || w.effectRisk > 5.0
  }

  /** The decision from the evidence; there is none exactly where a weight exceeds five. */
  lemma DecisionExactly(e: Evidence, t: PolicyThresholds)
    ensures Decide(e, t) == None <==> TooHeavy(InForce(t.weights))
    ensures Decide(e, t).Some? ==>
      DecidedBy(Decide(e, t).value, TooRisky(e, t), e.adjusted, e.divergence,
                Aggregate(e, InForce(t.weights)), t.allowMin, t.maxDrift)
  {
    GateExactly(e, t);
    RuleExactly(Assess(e, InForce(t.weights)), t, TooRisky(e, t));
  }

  lemma RuleOfScores(a: Assessment, b: Assessment, t: PolicyThresholds)
    requires a.scores == b.scores && a.verdict == b.verdict && a.adjusted == b.adjusted && a.aggregate == b.aggregate
    requires a.divergence == Some(Stable) && b.divergence == None
    ensures Rule(a, t) == Rule(b, t)
  {
  }

  lemma SameScores(e: Evidence, weights: ScorerWeights)
    ensures Scores(e.(divergence := Some(Stable)), weights) == Scores(e.(divergence := None), weights)
  {
  }

  /** A stable cast is decided as one whose divergence is not known. */
  lemma StableAsUnmeasured(e: Evidence, t: PolicyThresholds)
    ensures Decide(e.(divergence := Some(Stable)), t) == Decide(e.(divergence := None), t)
  {
    var stable, none, w := e.(divergence := Some(Stable)), e.(divergence := None), InForce(t.weights);
    SameScores(e, w);
    RuleOfScores(Assess(stable, w), Assess(none, w), t);
  }

  // ---- Better casts ----

  ghost predicate NoFarther(d': Option<DivergenceStatus>, d: Option<DivergenceStatus>) {
    d' == d || d == Some(Diverged) || d' == None || d' == Some(Stable)
  }

  ghost predicate NoLessNarrated(n': Option<real>, n: Option<real>) {
    n' == n || (n'.Some? && n'.value >= if n.Some? then n.value else 0.5)
  }

  /** No worse in any respect: at least the resonance, no farther from its parent, no less
      coherent a narrative, and no effect that the other has not. */
  ghost predicate NoWorse(e': Evidence, e: Evidence) {
    && e'.adjusted >= e.adjusted && NoFarther(e'.divergence, e.divergence)
    && NoLessNarrated(e'.narrative, e.narrative) && e'.effects <= e.effects
  }

  lemma FewerEffects(effects': seq<Effect>, effects: seq<Effect>)
    requires effects' <= effects
    ensures EffectValue(effects') >= EffectValue(effects)
  {
    assert effects == effects' + effects[|effects'|..];
    RiskConcat(effects', effects[|effects'|..]);
  }

  lemma ValuesOrder(s': seq<ScoreComponent>, s: seq<ScoreComponent>)
    requires |s'| == |s| == 4
    requires forall i :: 0 <= i < 4 ==> s'[i].weight == s[i].weight >= 0.0 && s'[i].value >= s[i].value
    ensures WeightedValue(s') >= WeightedValue(s)
  {
    ProductsOrder(s[0].weight, s[0].value, s'[0].value);
    ProductsOrder(s[1].weight, s[1].value, s'[1].value);
    ProductsOrder(s[2].weight, s[2].value, s'[2].value);
    ProductsOrder(s[3].weight, s[3].value, s'[3].value);
  }

  lemma ScoresOrder(e': Evidence, e: Evidence, weights: ScorerWeights)
    requires NoWorse(e', e) && e.divergence != Some(Diverged)
    ensures Aggregate(e', weights) >= Aggregate(e, weights)
  {
    var s', s := Scores(e', weights), Scores(e, weights);
    FewerEffects(e'.effects, e.effects);
    ValuesOrder(s', s);
    QuotientsOrder(WeightedValue(s), WeightedValue(s'), Divisor(weights));
  }

  lemma ActionsOrder(action': PolicyAction, action: PolicyAction, risky': bool, risky: bool, e': Evidence, e: Evidence,
                     aggregate': real, aggregate: real, t: PolicyThresholds)
    requires DecidedBy(action', risky', e'.adjusted, e'.divergence, aggregate', t.allowMin, t.maxDrift)
    requires DecidedBy(action, risky, e.adjusted, e.divergence, aggregate, t.allowMin, t.maxDrift)
    requires risky' ==> risky
    requires NoWorse(e', e) && (e.divergence != Some(Diverged) ==> aggregate' >= aggregate)
    ensures action == Deny || action' == Allow || (action == Reshape && action' == Reshape)
  {
  }

  lemma RiskierEffects(e': Evidence, e: Evidence, t: PolicyThresholds)
    requires e'.effects <= e.effects
    ensures TooRisky(e', t) ==> TooRisky(e, t)
  {
    FewerEffects(e'.effects, e.effects);
  }

  /** A cast no worse in any respect is never decided more strictly. */
  lemma BetterIsNoStricter(e': Evidence, e: Evidence, t: PolicyThresholds)
    requires NoWorse(e', e)
    ensures Decide(e', t).Some? <==> Decide(e, t).Some?
    ensures Decide(e, t).Some? ==>
      Permissiveness(Decide(e, t).value) <= Permissiveness(Decide(e', t).value)
  {
    var w := InForce(t.weights);
    DecisionExactly(e, t);
    DecisionExactly(e', t);
    RiskierEffects(e', e, t);
    if e.divergence != Some(Diverged) {
      ScoresOrder(e', e, w);
    }
    if Decide(e, t).Some? {
      ActionsOrder(Decide(e', t).value, Decide(e, t).value, TooRisky(e', t), TooRisky(e, t), e', e,
                   Aggregate(e', w), Aggregate(e, w), t);
    }
  }

  /** An allowed drifting cast stays allowed once it is stable. */
  lemma DriftingToStable(e: Evidence, t: PolicyThresholds)
    requires Decide(e.(divergence := Some(Drifting)), t) == Some(Allow)
    ensures Decide(e.(divergence := Some(Stable)), t) == Some(Allow)
  {
    BetterIsNoStricter(e.(divergence := Some(Stable)), e.(divergence := Some(Drifting)), t);
  }

  // ---- Merged thresholds ----

  /** The least bound above both. */
  ghost predicate IsLeastAbove(x: real, base: real, ward: Option<real>) {
    && x >= base && (ward.Some? ==> x >= ward.value)
    && (x == base || ward == Some(x))
  }

  /** The merged thresholds, field by field: each bound the larger of the two where both are
      given, the drift bound and each weight the ward's where it gives one. */
  lemma MergedExactly(base: PolicyThresholds, w: WardSpec)
    ensures var m := Policy.Merge(base, w);
      && IsLeastAbove(m.allowMin, base.allowMin, w.allowMin)
      && IsLeastAbove(m.reshapeMin, base.reshapeMin, w.reshapeMin)
      && (base.effectRiskMin.Some? ==>
            m.effectRiskMin.Some? && IsLeastAbove(m.effectRiskMin.value, base.effectRiskMin.value, w.effectRiskMin))
      && (base.effectRiskMin.None? ==> m.effectRiskMin == w.effectRiskMin)
      && (w.maxDrift.Some? ==> Some(m.maxDrift) == w.maxDrift)
      && (w.maxDrift.None? ==> m.maxDrift == base.maxDrift)
  {
  }

  lemma MergedWeights(base: PolicyThresholds, w: WardSpec, name: string)
    ensures var m := Policy.Merge(base, w).weights;
      && (w.weights.Some? && name in w.weights.value ==> name in m && m[name] == w.weights.value[name])
      && (w.weights.None? || name !in w.weights.value ==>
            (name in m <==> name in base.weights) && (name in m ==> m[name] == base.weights[name]))
  {
  }
}
