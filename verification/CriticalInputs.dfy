/** Which wards never loosen, weights included: a finite list of inputs decides, because for each
    effect value and divergence the aggregates are linear in the two other scores. */
module CriticalInputs {
  import opened Reals
  import opened Wrappers
  import opened Schema
  import Casting
  import opened Policy

  // ---- Two linear bounds over a box ----

  /** Reaches `need` with weights `wx` and `wy`: by x first, up to its bound, then by y. */
  function Greedy(wx: real, wy: real, boundX: real, need: real): (real, real) {
    if need <= 0.0 then (0.0, 0.0)
    else if wx > 0.0 && wx * boundX >= need then (need / wx, 0.0)
    else if wy > 0.0 then (boundX, (need - wx * boundX) / wy)
    else (boundX, 0.0)
  }

  ghost predicate Reaches(wx: real, wy: real, x: real, y: real, need: real) {
    wx * x + wy * y >= need
  }

  ghost predicate InBox(x: real, y: real, boundX: real, boundY: real) {
    0.0 <= x <= boundX && 0.0 <= y <= boundY
  }

  lemma GreedyFirst(wx: real, wy: real, ux: real, uy: real, boundX: real, boundY: real, need: real, x: real, y: real)
    requires wx > 0.0 && wy >= 0.0 && ux >= 0.0 && uy >= 0.0 && InBox(x, y, boundX, boundY)
    requires Reaches(wx, wy, x, y, need) && need > 0.0 && wx * boundX >= need && ux * wy <= uy * wx
    ensures var g := need / wx;
      0.0 <= g <= boundX && wx * g == need && ux * g <= ux * x + uy * y
  {
    var g := need / wx;
    QuotientTimes(need, wx);
    QuotientAtLeast(need, wx, 0.0);
    CancelFactor(g, boundX, wx);
    ProductsOrder(ux, need, wx * x + wy * y);
    ProductsOrder(y, ux * wy, uy * wx);
    assert ux * (wx * x + wy * y) == wx * (ux * x) + y * (ux * wy);
    assert wx * (ux * x + uy * y) == wx * (ux * x) + y * (uy * wx);
    assert (ux * g) * wx == ux * need;
    CancelFactor(ux * g, ux * x + uy * y, wx);
  }

  lemma GreedySecond(wx: real, wy: real, ux: real, uy: real, boundX: real, boundY: real, need: real, x: real, y: real)
    requires wx >= 0.0 && wy >= 0.0 && ux >= 0.0 && uy >= 0.0 && InBox(x, y, boundX, boundY)
    requires Reaches(wx, wy, x, y, need) && wx * boundX < need && ux * wy <= uy * wx
    ensures wy > 0.0
    ensures var g := (need - wx * boundX) / wy;
      0.0 <= g <= y && wx * boundX + wy * g == need && ux * boundX + uy * g <= ux * x + uy * y
  {
    ProductsOrder(wx, x, boundX);
    if wy == 0.0 {
      assert false;
    }
    var rest := need - wx * boundX;
    var g := rest / wy;
    QuotientTimes(rest, wy);
    QuotientAtLeast(rest, wy, 0.0);
    assert rest <= y * wy;
    CancelFactor(g, y, wy);
    SecondCost(wx, wy, ux, uy, boundX, need, x, y, g);
  }

  /** By then x is at its bound, and y makes up for what x still lacked. */
  lemma SecondCost(wx: real, wy: real, ux: real, uy: real, boundX: real, need: real, x: real, y: real, g: real)
    requires wy > 0.0 && uy >= 0.0 && x <= boundX && ux * wy <= uy * wx
    requires wx * x + wy * y >= need && wx * boundX + wy * g == need
    ensures ux * boundX + uy * g <= ux * x + uy * y
  {
    var dx, dy := boundX - x, y - g;
    assert wy * dy == wy * y - wy * g && wx * dx == wx * boundX - wx * x;
    assert wy * dy >= wx * dx;
    ProductsOrder(uy, wx * dx, wy * dy);
    ProductsOrder(dx, ux * wy, uy * wx);
    assert (ux * dx) * wy == dx * (ux * wy);
    assert uy * (wx * dx) == dx * (uy * wx);
    assert (uy * dy) * wy == uy * (wy * dy);
    CancelFactor(ux * dx, uy * dy, wy);
    assert ux * dx == ux * boundX - ux * x && uy * dy == uy * y - uy * g;
  }

  lemma ZeroIsBest(ux: real, uy: real, x: real, y: real)
    requires ux >= 0.0 && uy >= 0.0 && x >= 0.0 && y >= 0.0
    ensures ux * 0.0 + uy * 0.0 <= ux * x + uy * y
  {
    ProductsOrder(ux, 0.0, x);
    ProductsOrder(uy, 0.0, y);
  }

  /** When x costs no more than y for what it reaches, no point of the box that reaches the need
      costs less than the greedy one. */
  lemma GreedyIsBest(wx: real, wy: real, ux: real, uy: real, boundX: real, boundY: real, need: real, x: real, y: real)
    requires wx >= 0.0 && wy >= 0.0 && ux >= 0.0 && uy >= 0.0 && InBox(x, y, boundX, boundY)
    requires Reaches(wx, wy, x, y, need) && ux * wy <= uy * wx
    ensures var (gx, gy) := Greedy(wx, wy, boundX, need);
      InBox(gx, gy, boundX, boundY) && Reaches(wx, wy, gx, gy, need) && ux * gx + uy * gy <= ux * x + uy * y
  {
    if need <= 0.0 {
      ZeroIsBest(ux, uy, x, y);
    } else if wx > 0.0 && wx * boundX >= need {
      GreedyFirst(wx, wy, ux, uy, boundX, boundY, need, x, y);
    } else {
      assert wx == 0.0 ==> wx * boundX == 0.0;
      GreedySecond(wx, wy, ux, uy, boundX, boundY, need, x, y);
    }
  }

  // ---- Effect lists ----

  /** `computes` reversible COMPUTE effects and `marks` irreversible READ effects. */
  function Catalogue(computes: nat, marks: nat): seq<Effect> {
    if marks > 0 then Catalogue(computes, marks - 1) + [Effect(Read, false)]
    else if computes > 0 then Catalogue(computes - 1, 0) + [Effect(Compute, true)]
    else []
  }

  lemma {:induction false} CatalogueRisk(computes: nat, marks: nat)
    ensures Risk(Catalogue(computes, marks)) == 0.10 * computes as real + 0.25 * marks as real
    decreases marks, computes
  {
    var effects := Catalogue(computes, marks);
    if marks > 0 {
      CatalogueRisk(computes, marks - 1);
      assert effects[..|effects| - 1] == Catalogue(computes, marks - 1);
    } else if computes > 0 {
      CatalogueRisk(computes - 1, 0);
      assert effects[..|effects| - 1] == Catalogue(computes - 1, 0);
    }
  }

  /** Every risk is that of some computes and marks: a WRITE weighs as one of each. */
  lemma {:induction false} RiskIsCounted(effects: seq<Effect>) returns (computes: nat, marks: nat)
    ensures Risk(effects) == 0.10 * computes as real + 0.25 * marks as real
  {
    if effects == [] {
      computes, marks := 0, 0;
    } else {
      var last := effects[|effects| - 1];
      computes, marks := RiskIsCounted(effects[..|effects| - 1]);
      if last.kind in {Write, Exec, Network} {
        computes, marks := computes + 1, marks + 1;
      } else if last.kind == Compute {
        computes := computes + 1;
      }
      if !last.reversible {
        marks := marks + 1;
      }
    }
  }

  /** Every effect value is that of one of 55 lists. */
  lemma ValueIsCatalogued(effects: seq<Effect>) returns (computes: nat, marks: nat)
    ensures computes <= 10 && marks <= 4
    ensures EffectValue(Catalogue(computes, marks)) == EffectValue(effects)
  {
    computes, marks := RiskIsCounted(effects);
    if 2 * computes + 5 * marks >= 20 {
      assert 0.10 * computes as real + 0.25 * marks as real == 0.05 * (2 * computes + 5 * marks) as real;
      computes, marks := 10, 0;
    }
    CatalogueRisk(computes, marks);
  }

  // ---- The critical inputs ----

  /** The adjusted resonance an ALLOW needs at least. */
  function Floor(bound: real): real {
    Larger(0.75, bound)
  }

  /** Each scorer's share of the aggregate. */
  function SharesOf(weights: ScorerWeights): (shares: ScorerWeights) {
    var d := Divisor(weights);
    ShareSign(weights.resonance, d);
    ShareSign(weights.divergence, d);
    ShareSign(weights.narrative, d);
    ShareSign(weights.effectRisk, d);
    Weights(weights.resonance / d, weights.divergence / d, weights.narrative / d, weights.effectRisk / d)
  }

  lemma ShareSign(w: real, d: real)
    requires w >= 0.0 && d > 0.0
    ensures w / d >= 0.0
  {
    QuotientAtLeast(w, d, 0.0);
  }

  /** What resonance and narrative, of these shares, have to contribute. */
  datatype Line = Line(resonance: real, narrative: real, target: real)

  function LineOf(shares: ScorerWeights, bound: real, divergence: real, effects: real): Line {
    Line(shares.resonance, shares.narrative, bound - divergence * shares.divergence - effects * shares.effectRisk)
  }

  function Need(line: Line, floor: real): real {
    line.target - line.resonance * floor
  }

  /** The resonance above the floor and the narrative that just reach the line. */
  function Barely(line: Line, floor: real, narrativeFirst: bool): (real, real) {
    if narrativeFirst then
      var (y, x) := Greedy(line.narrative, line.resonance, 1.0, Need(line, floor));
      (x, y)
    else
      Greedy(line.resonance, line.narrative, 1.0 - floor, Need(line, floor))
  }

  function Drift(drifting: bool): Option<DivergenceStatus> {
    if drifting then Some(Drifting) else None
  }

  /** Perfect but for drift and effects (0), or barely allowed, resonance (1) or narrative (2) first. */
  function CriticalInput(t: PolicyThresholds, kind: nat, drifting: bool, computes: nat, marks: nat): Evidence {
    var effects := Catalogue(computes, marks);
    if kind == 0 then Evidence(1.0, Drift(drifting), Some(1.0), effects)
    else
      var line := LineOf(SharesOf(InForce(t.weights)), t.allowMin, DivergenceValue(Drift(drifting)),
        EffectValue(effects));
      var (x, y) := Barely(line, Floor(t.allowMin), kind == 2);
      Evidence(Floor(t.allowMin) + x, Drift(drifting), Some(y), effects)
  }

  /** None of the 330 critical inputs gets a more permissive decision from `strict`. */
  predicate NoLooserOnCritical(strict: PolicyThresholds, base: PolicyThresholds) {
    forall kind: nat, drifting: bool, computes: nat, marks: nat
      | kind <= 2 && computes <= 10 && marks <= 4 ::
      var e := CriticalInput(strict, kind, drifting, computes, marks);
      NoLooser(Decide(e, strict), Decide(e, base))
  }

  // ---- What an aggregate reaches ----

  function ResonanceOf(e: Evidence): real {
    Clamp(e.adjusted, 0.0, 1.0)
  }

  function NarrativeOf(e: Evidence): real {
    if e.narrative == None then 0.5 else Clamp(e.narrative.value, 0.0, 1.0)
  }

  /** The line of an input's divergence and effects. */
  function Target(e: Evidence, shares: ScorerWeights, bound: real): Line {
    LineOf(shares, bound, DivergenceValue(e.divergence), EffectValue(e.effects))
  }

  /** Resonance and narrative contribute enough. */
  ghost predicate Meets(line: Line, resonance: real, narrative: real) {
    line.resonance * resonance + line.narrative * narrative >= line.target
  }

  lemma TermShare(value: real, weight: real, d: real)
    requires d > 0.0
    ensures (value * weight) / d == value * (weight / d)
  {
    QuotientTimes(weight, d);
    QuotientTimes(value * weight, d);
    assert (value * (weight / d)) * d == value * weight;
    CancelFactor((value * weight) / d, value * (weight / d), d);
    CancelFactor(value * (weight / d), (value * weight) / d, d);
  }

  lemma SumShare(x: real, y: real, d: real)
    requires d > 0.0
    ensures (x + y) / d == x / d + y / d
  {
  }

  lemma MeanOfShares(a: real, b: real, c: real, f: real, wa: real, wb: real, wc: real, wf: real, d: real)
    requires d > 0.0
    ensures (a * wa + b * wb + c * wc + f * wf) / d == a * (wa / d) + b * (wb / d) + c * (wc / d) + f * (wf / d)
  {
    TermShare(a, wa, d);
    TermShare(b, wb, d);
    TermShare(c, wc, d);
    TermShare(f, wf, d);
    SumShare(a * wa + b * wb + c * wc, f * wf, d);
    SumShare(a * wa + b * wb, c * wc, d);
    SumShare(a * wa, b * wb, d);
  }

  /** The scores of an input, by shares. */
  function ByShares(shares: ScorerWeights, r: real, d: real, n: real, v: real): real {
    r * shares.resonance + d * shares.divergence + n * shares.narrative + v * shares.effectRisk
  }

  ghost predicate WeighedBy(s: seq<ScoreComponent>, weights: ScorerWeights) {
    && |s| == 4
    && s[0].weight == weights.resonance && s[1].weight == weights.divergence
    && s[2].weight == weights.narrative && s[3].weight == weights.effectRisk
  }

  lemma WeighedScores(s: seq<ScoreComponent>, weights: ScorerWeights)
    requires WeighedBy(s, weights)
    ensures WeightedValue(s) == s[0].value * weights.resonance + s[1].value * weights.divergence
                              + s[2].value * weights.narrative + s[3].value * weights.effectRisk
  {
  }

  lemma SharedScores(weights: ScorerWeights, r: real, d: real, n: real, v: real, divisor: real)
    requires divisor == Divisor(weights)
    ensures ByShares(SharesOf(weights), r, d, n, v)
      == r * (weights.resonance / divisor) + d * (weights.divergence / divisor)
       + n * (weights.narrative / divisor) + v * (weights.effectRisk / divisor)
  {
  }

  lemma MeanByWeights(s: seq<ScoreComponent>, weights: ScorerWeights, divisor: real)
    requires WeighedBy(s, weights) && divisor > 0.0
    ensures WeightedValue(s) / divisor
      == s[0].value * (weights.resonance / divisor) + s[1].value * (weights.divergence / divisor)
       + s[2].value * (weights.narrative / divisor) + s[3].value * (weights.effectRisk / divisor)
  {
    WeighedScores(s, weights);
    MeanOfShares(s[0].value, s[1].value, s[2].value, s[3].value,
                 weights.resonance, weights.divergence, weights.narrative, weights.effectRisk, divisor);
  }

  lemma MeanOfScores(s: seq<ScoreComponent>, weights: ScorerWeights)
    requires WeighedBy(s, weights)
    ensures WeightedValue(s) / Divisor(weights)
      == ByShares(SharesOf(weights), s[0].value, s[1].value, s[2].value, s[3].value)
  {
    MeanByWeights(s, weights, Divisor(weights));
    SharedScores(weights, s[0].value, s[1].value, s[2].value, s[3].value, Divisor(weights));
  }

  lemma ScoresOf(e: Evidence, weights: ScorerWeights)
    ensures var s := Scores(e, weights);
      && s[0] == ScoreComponent("resonance", ResonanceOf(e), weights.resonance)
      && s[1] == ScoreComponent("divergence", DivergenceValue(e.divergence), weights.divergence)
      && s[2] == ScoreComponent("narrative", NarrativeOf(e), weights.narrative)
      && s[3] == ScoreComponent("effect_risk", EffectValue(e.effects), weights.effectRisk)
  {
  }

  lemma AggregateOf(e: Evidence, weights: ScorerWeights)
    ensures Aggregate(e, weights)
      == ByShares(SharesOf(weights), ResonanceOf(e), DivergenceValue(e.divergence), NarrativeOf(e),
        EffectValue(e.effects))
  {
    ScoresOf(e, weights);
    MeanOfScores(Scores(e, weights), weights);
  }

  lemma LineReached(shares: ScorerWeights, aggregate: real, r: real, n: real, d: real, v: real, bound: real)
    requires aggregate == ByShares(shares, r, d, n, v)
    ensures aggregate >= bound <==> Meets(LineOf(shares, bound, d, v), r, n)
  {
  }

  /** The aggregate clears a bound exactly when resonance and narrative reach the line. */
  lemma Clears(e: Evidence, weights: ScorerWeights, bound: real)
    ensures Aggregate(e, weights) >= bound
      <==> Meets(Target(e, SharesOf(weights), bound), ResonanceOf(e), NarrativeOf(e))
  {
    AggregateOf(e, weights);
    LineReached(SharesOf(weights), Aggregate(e, weights), ResonanceOf(e), NarrativeOf(e),
                DivergenceValue(e.divergence), EffectValue(e.effects), bound);
  }

  lemma MeetsMore(line: Line, r: real, n: real, r': real, n': real)
    requires line.resonance >= 0.0 && line.narrative >= 0.0 && r <= r' && n <= n' && Meets(line, r, n)
    ensures Meets(line, r', n')
  {
    ProductsOrder(line.resonance, r, r');
    ProductsOrder(line.narrative, n, n');
  }

  /** (x, y), with x counted above the floor, reaches the need. */
  ghost predicate NeedReached(line: Line, floor: real, x: real, y: real) {
    Reaches(line.resonance, line.narrative, x, y, Need(line, floor))
  }

  /** What the need means. */
  lemma NeedMet(line: Line, floor: real, resonance: real, x: real, y: real)
    requires resonance == floor + x
    ensures Meets(line, resonance, y) <==> NeedReached(line, floor, x, y)
  {
    assert line.resonance * resonance == line.resonance * floor + line.resonance * x;
  }

  /** The point (gx, gy) contributes no more than (x, y). */
  ghost predicate Cheaper(line: Line, gx: real, gy: real, x: real, y: real) {
    line.resonance * gx + line.narrative * gy <= line.resonance * x + line.narrative * y
  }

  lemma MissesCheaper(line: Line, floor: real, x: real, y: real, gx: real, gy: real)
    requires Cheaper(line, gx, gy, x, y) && !Meets(line, floor + x, y)
    ensures !Meets(line, floor + gx, gy)
  {
    var wr := line.resonance;
    assert wr * (floor + gx) == wr * floor + wr * gx && wr * (floor + x) == wr * floor + wr * x;
  }

  ghost predicate Positive(line: Line) {
    line.resonance >= 0.0 && line.narrative >= 0.0
  }

  /** What a greedy point owes to the point (x, y) it replaces. */
  ghost predicate Replaces(line: Line, other: Line, floor: real, x: real, y: real, gx: real, gy: real) {
    InBox(gx, gy, 1.0 - floor, 1.0) && NeedReached(line, floor, gx, gy) && Cheaper(other, gx, gy, x, y)
  }

  lemma ByResonance(line: Line, other: Line, floor: real, x: real, y: real) returns (gx: real, gy: real)
    requires Positive(line) && Positive(other)
    requires InBox(x, y, 1.0 - floor, 1.0) && NeedReached(line, floor, x, y)
    requires other.resonance * line.narrative <= other.narrative * line.resonance
    ensures (gx, gy) == Barely(line, floor, false) && Replaces(line, other, floor, x, y, gx, gy)
  {
    gx, gy := GreedyChoice(line.resonance, line.narrative, other.resonance, other.narrative, 1.0 - floor, 1.0,
                           Need(line, floor), x, y);
  }

  lemma ByNarrative(line: Line, other: Line, floor: real, x: real, y: real) returns (gx: real, gy: real)
    requires Positive(line) && Positive(other)
    requires InBox(x, y, 1.0 - floor, 1.0) && NeedReached(line, floor, x, y)
    requires other.narrative * line.resonance <= other.resonance * line.narrative
    ensures (gx, gy) == Barely(line, floor, true) && Replaces(line, other, floor, x, y, gx, gy)
  {
    gy, gx := GreedyChoice(line.narrative, line.resonance, other.narrative, other.resonance, 1.0, 1.0 - floor,
                           Need(line, floor), y, x);
  }

  /** A greedy point that still reaches the need, and contributes no more than (x, y) to `other`. */
  lemma GreedyPoint(line: Line, other: Line, floor: real, x: real, y: real)
    returns (narrativeFirst: bool, gx: real, gy: real)
    requires Positive(line) && Positive(other)
    requires InBox(x, y, 1.0 - floor, 1.0) && NeedReached(line, floor, x, y)
    ensures (gx, gy) == Barely(line, floor, narrativeFirst) && Replaces(line, other, floor, x, y, gx, gy)
  {
    narrativeFirst := other.resonance * line.narrative > other.narrative * line.resonance;
    if narrativeFirst {
      gx, gy := ByNarrative(line, other, floor, x, y);
    } else {
      gx, gy := ByResonance(line, other, floor, x, y);
    }
  }

  lemma GreedyChoice(wx: real, wy: real, ux: real, uy: real, boundX: real, boundY: real, need: real, x: real, y: real)
    returns (gx: real, gy: real)
    requires wx >= 0.0 && wy >= 0.0 && ux >= 0.0 && uy >= 0.0 && InBox(x, y, boundX, boundY)
    requires Reaches(wx, wy, x, y, need) && ux * wy <= uy * wx
    ensures (gx, gy) == Greedy(wx, wy, boundX, need)
    ensures InBox(gx, gy, boundX, boundY) && Reaches(wx, wy, gx, gy, need) && ux * gx + uy * gy <= ux * x + uy * y
  {
    var point := Greedy(wx, wy, boundX, need);
    gx, gy := point.0, point.1;
    GreedyIsBest(wx, wy, ux, uy, boundX, boundY, need, x, y);
  }

  // ---- The critical inputs decide ----

  /** What it takes to be allowed under `strict` and reshaped under `base`, the effect gates apart. */
  ghost predicate Gains(e: Evidence, strict: PolicyThresholds, base: PolicyThresholds) {
    && e.adjusted >= Floor(strict.allowMin) && e.divergence != Some(Diverged)
    && DriftOk(e.divergence, strict) && Aggregate(e, InForce(strict.weights)) >= strict.allowMin
    && (DriftOk(e.divergence, base) ==> Aggregate(e, InForce(base.weights)) < base.allowMin)
  }

  lemma SameGate(e: Evidence, f: Evidence, t: PolicyThresholds, weights: ScorerWeights)
    requires EffectValue(e.effects) == EffectValue(f.effects)
    ensures RiskGateFires(Scores(e, weights), t) <==> RiskGateFires(Scores(f, weights), t)
  {
    EffectComponent(e, weights);
    EffectComponent(f, weights);
  }

  lemma AllowedExactly(a: Assessment, t: PolicyThresholds)
    ensures Rule(a, t) == Allow <==>
      && Rule(a, t) != Deny && a.verdict == Coherent && a.adjusted >= t.allowMin
      && DriftOk(a.divergence, t) && a.aggregate >= t.allowMin
  {
  }

  /** An input that gains, with effects that pass both gates as those of `e` do, is loosened. */
  lemma GainsIsLoosened(e: Evidence, f: Evidence, strict: PolicyThresholds, base: PolicyThresholds)
    requires Decide(e, strict) == Some(Allow) && Decide(e, base) == Some(Reshape)
    requires EffectValue(e.effects) == EffectValue(f.effects) && Gains(f, strict, base)
    ensures !NoLooser(Decide(f, strict), Decide(f, base))
  {
    var weights, other := InForce(strict.weights), InForce(base.weights);
    SameGate(e, f, strict, weights);
    SameGate(e, f, base, other);
    DeniedExactly(Assess(e, weights), strict);
    DeniedExactly(Assess(e, other), base);
    DeniedExactly(Assess(f, weights), strict);
    DeniedExactly(Assess(f, other), base);
    AllowedExactly(Assess(f, weights), strict);
    AllowedExactly(Assess(f, other), base);
  }

  lemma LoosenedGains(e: Evidence, strict: PolicyThresholds, base: PolicyThresholds)
    requires Decide(e, strict) == Some(Allow) && Decide(e, base) == Some(Reshape)
    requires base.allowMin <= strict.allowMin
    ensures Gains(e, strict, base)
  {
  }

  /** Where the base refuses the drift itself, the perfect drifting input gains too. */
  lemma RefusedDrift(e: Evidence, f: Evidence, strict: PolicyThresholds, base: PolicyThresholds)
    requires Gains(e, strict, base) && !DriftOk(e.divergence, base) && strict.allowMin <= 1.0
    requires f.adjusted == 1.0 && f.divergence == Some(Drifting) && f.narrative == Some(1.0)
    requires EffectValue(f.effects) == EffectValue(e.effects)
    ensures Gains(f, strict, base)
  {
    var weights, bound := InForce(strict.weights), strict.allowMin;
    Clears(e, weights, bound);
    Clears(f, weights, bound);
    MeetsMore(Target(e, SharesOf(weights), bound), ResonanceOf(e), NarrativeOf(e), 1.0, 1.0);
  }

  /** `f` has the drift and the effect value of `e`, and the scores of a point above the floor. */
  ghost predicate AtPoint(e: Evidence, f: Evidence, bound: real, gx: real, gy: real) {
    && e.divergence != Some(Diverged) && f.divergence == Drift(e.divergence == Some(Drifting))
    && EffectValue(f.effects) == EffectValue(e.effects)
    && f.adjusted == Floor(bound) + gx && f.narrative == Some(gy)
    && bound <= 1.0 && InBox(gx, gy, 1.0 - Floor(bound), 1.0)
  }

  lemma PointScores(e: Evidence, f: Evidence, bound: real, gx: real, gy: real)
    requires AtPoint(e, f, bound, gx, gy)
    ensures ResonanceOf(f) == Floor(bound) + gx && NarrativeOf(f) == gy
    ensures DivergenceValue(f.divergence) == DivergenceValue(e.divergence)
  {
  }

  lemma PointAllows(e: Evidence, f: Evidence, weights: ScorerWeights, bound: real, gx: real, gy: real)
    requires AtPoint(e, f, bound, gx, gy) && NeedReached(Target(e, SharesOf(weights), bound), Floor(bound), gx, gy)
    ensures Aggregate(f, weights) >= bound
  {
    PointScores(e, f, bound, gx, gy);
    NeedMet(Target(e, SharesOf(weights), bound), Floor(bound), ResonanceOf(f), gx, gy);
    Clears(f, weights, bound);
  }

  lemma PointMisses(e: Evidence, f: Evidence, strictBound: real, weights: ScorerWeights, bound: real,
                    x: real, gx: real, gy: real)
    requires AtPoint(e, f, strictBound, gx, gy) && Aggregate(e, weights) < bound
    requires ResonanceOf(e) == Floor(strictBound) + x
    requires Cheaper(Target(e, SharesOf(weights), bound), gx, gy, x, NarrativeOf(e))
    ensures Aggregate(f, weights) < bound
  {
    PointScores(e, f, strictBound, gx, gy);
    Clears(e, weights, bound);
    MissesCheaper(Target(e, SharesOf(weights), bound), Floor(strictBound), x, NarrativeOf(e), gx, gy);
    Clears(f, weights, bound);
  }

  lemma PointGains(e: Evidence, f: Evidence, strict: PolicyThresholds, base: PolicyThresholds, gx: real, gy: real)
    requires Gains(e, strict, base) && DriftOk(e.divergence, base) && AtPoint(e, f, strict.allowMin, gx, gy)
    requires Aggregate(f, InForce(strict.weights)) >= strict.allowMin
    requires Aggregate(f, InForce(base.weights)) < base.allowMin
    ensures Gains(f, strict, base)
  {
  }

  lemma NeedMetBy(e: Evidence, weights: ScorerWeights, bound: real, x: real)
    requires Aggregate(e, weights) >= bound && ResonanceOf(e) == Floor(bound) + x
    ensures NeedReached(Target(e, SharesOf(weights), bound), Floor(bound), x, NarrativeOf(e))
  {
    Clears(e, weights, bound);
    NeedMet(Target(e, SharesOf(weights), bound), Floor(bound), ResonanceOf(e), x, NarrativeOf(e));
  }

  lemma PointIsCritical(e: Evidence, strict: PolicyThresholds, narrativeFirst: bool, gx: real, gy: real,
                        computes: nat, marks: nat) returns (f: Evidence, kind: nat)
    requires (gx, gy)
      == Barely(Target(e, SharesOf(InForce(strict.weights)), strict.allowMin), Floor(strict.allowMin), narrativeFirst)
    requires e.divergence != Some(Diverged) && EffectValue(Catalogue(computes, marks)) == EffectValue(e.effects)
    requires strict.allowMin <= 1.0 && InBox(gx, gy, 1.0 - Floor(strict.allowMin), 1.0)
    ensures 1 <= kind <= 2 && f == CriticalInput(strict, kind, e.divergence == Some(Drifting), computes, marks)
    ensures AtPoint(e, f, strict.allowMin, gx, gy)
  {
    kind := if narrativeFirst then 2 else 1;
    f := CriticalInput(strict, kind, e.divergence == Some(Drifting), computes, marks);
    assert DivergenceValue(Drift(e.divergence == Some(Drifting))) == DivergenceValue(e.divergence);
  }

  /** A critical input gains where some input with its drift and effect value does: moving to the
      greedy point keeps the ALLOW and lowers what the base sees. */
  lemma BarelyGains(e: Evidence, strict: PolicyThresholds, base: PolicyThresholds, computes: nat, marks: nat)
    returns (f: Evidence, kind: nat)
    requires Gains(e, strict, base) && DriftOk(e.divergence, base) && strict.allowMin <= 1.0
    requires EffectValue(Catalogue(computes, marks)) == EffectValue(e.effects)
    ensures 1 <= kind <= 2 && f == CriticalInput(strict, kind, e.divergence == Some(Drifting), computes, marks)
    ensures Gains(f, strict, base)
  {
    var weights, other, bound := InForce(strict.weights), InForce(base.weights), strict.allowMin;
    var x, y := ResonanceOf(e) - Floor(bound), NarrativeOf(e);
    NeedMetBy(e, weights, bound, x);
    var narrativeFirst, gx, gy :=
      GreedyPoint(Target(e, SharesOf(weights), bound), Target(e, SharesOf(other), base.allowMin), Floor(bound), x, y);
    f, kind := PointIsCritical(e, strict, narrativeFirst, gx, gy, computes, marks);
    PointAllows(e, f, weights, bound, gx, gy);
    PointMisses(e, f, bound, other, base.allowMin, x, gx, gy);
    PointGains(e, f, strict, base, gx, gy);
  }

  lemma RiskGateDropped(base: PolicyThresholds, w: WardSpec, computes: nat)
    requires DropsRiskGate(base, w) && computes == 10
    requires Weighable(InForce(base.weights)) && Weighable(InForce(Policy.Merge(base, w).weights))
    ensures var e := CriticalInput(Policy.Merge(base, w), 0, false, computes, 0);
      !NoLooser(Decide(e, Policy.Merge(base, w)), Decide(e, base))
  {
    var e := CriticalInput(Policy.Merge(base, w), 0, false, computes, 0);
    CatalogueRisk(computes, 0);
    GateSwitchedOff(base, w, e);
  }

  /** A DENY that does not stand shows on a critical input. */
  lemma DenialLost(base: PolicyThresholds, w: WardSpec, e: Evidence)
    requires ValidThresholds(base) && ValidWard(w)
    requires Decide(e, base) == Some(Deny) && !NoLooser(Decide(e, Policy.Merge(base, w)), Decide(e, base))
    ensures !NoLooserOnCritical(Policy.Merge(base, w), base)
  {
    DenialsStandExactly(base, w);
    assert !DenialsStand(Policy.Merge(base, w), base);
    RiskGateDropped(base, w, 10);
  }

  /** So does an ALLOW gained. */
  lemma AllowGained(strict: PolicyThresholds, base: PolicyThresholds, e: Evidence)
    requires Decide(e, strict) == Some(Allow) && Decide(e, base) == Some(Reshape)
    requires base.allowMin <= strict.allowMin <= 1.0
    ensures !NoLooserOnCritical(strict, base)
  {
    var computes, marks := ValueIsCatalogued(e.effects);
    LoosenedGains(e, strict, base);
    var f, kind, drifting;
    if DriftOk(e.divergence, base) {
      drifting := e.divergence == Some(Drifting);
      f, kind := BarelyGains(e, strict, base, computes, marks);
    } else {
      f, kind, drifting := CriticalInput(strict, 0, true, computes, marks), 0, true;
      RefusedDrift(e, f, strict, base);
    }
    SameEffects(e, f, strict, kind, drifting, computes, marks);
    GainsIsLoosened(e, f, strict, base);
  }

  lemma SameEffects(e: Evidence, f: Evidence, t: PolicyThresholds, kind: nat, drifting: bool, computes: nat, marks: nat)
    requires f == CriticalInput(t, kind, drifting, computes, marks)
    requires EffectValue(Catalogue(computes, marks)) == EffectValue(e.effects)
    ensures EffectValue(f.effects) == EffectValue(e.effects)
  {
  }

  /** Some critical input is loosened where any input is. */
  lemma CriticalLoosened(base: PolicyThresholds, w: WardSpec, e: Evidence)
    requires ValidThresholds(base) && ValidWard(w) && !NoLooser(Decide(e, Policy.Merge(base, w)), Decide(e, base))
    ensures !NoLooserOnCritical(Policy.Merge(base, w), base)
  {
    if Decide(e, base) == Some(Deny) {
      DenialLost(base, w, e);
    } else {
      AllowGained(Policy.Merge(base, w), base, e);
    }
  }

  /** A ward, whatever it sets, never makes a decision more permissive exactly when it does not do
      so on the 330 critical inputs of the merged thresholds. */
  lemma CriticalInputsDecide(base: PolicyThresholds, w: WardSpec)
    requires ValidThresholds(base) && ValidWard(w)
    ensures NeverLooser(Policy.Merge(base, w), base) <==> NoLooserOnCritical(Policy.Merge(base, w), base)
  {
    if !NeverLooser(Policy.Merge(base, w), base) {
      var e :| !NoLooser(Decide(e, Policy.Merge(base, w)), Decide(e, base));
      CriticalLoosened(base, w, e);
    }
  }
}
