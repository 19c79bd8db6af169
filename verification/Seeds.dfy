/** Glyph seeds of vermyth/engine/operations/seeds.py: running statistics of a pattern's
    casts, and the bar a seed must clear to crystallize. */
module Seeds {
  import opened Reals
  import opened Wrappers
  import opened Schema
  import opened Casting
  import opened Vectors

  /** An aspect pattern and an effect class are opaque names here. */
  type Pattern = set<string>

  datatype GlyphSeed = GlyphSeed(
    pattern: Pattern, count: nat, mean: real, coherence: real,
    effectClass: Option<string>, crystallized: bool, generation: nat)

  /** What a cast contributes: its pattern, adjusted score and effect class. */
  datatype Observation = Observation(pattern: Pattern, adjusted: real, effectClass: string)

  predicate ValidObservation(o: Observation) {
    0.0 <= o.adjusted <= 1.0
  }

  function Hit(o: Observation): real {
    if VerdictOf(o.adjusted) == Coherent then 1.0 else 0.0
  }

  function FirstMatch(seeds: seq<GlyphSeed>, pattern: Pattern): (r: Option<GlyphSeed>)
    ensures r.Some? ==> r.value in seeds && r.value.pattern == pattern
    ensures r.None? ==> forall s :: s in seeds ==> s.pattern != pattern
  {
    if seeds == [] then None
    else if seeds[0].pattern == pattern then Some(seeds[0])
    else FirstMatch(seeds[1..], pattern)
  }

  function Updated(seed: GlyphSeed, o: Observation): GlyphSeed {
    var n := seed.count + 1;
    GlyphSeed(
      seed.pattern, n,
      (seed.mean * seed.count as real + o.adjusted) / n as real,
      (seed.coherence * seed.count as real + Hit(o)) / n as real,
      if seed.effectClass == None then Some(o.effectClass) else seed.effectClass,
      false, seed.generation)
  }

  function Fresh(o: Observation): GlyphSeed {
    GlyphSeed(o.pattern, 1, o.adjusted, Hit(o), Some(o.effectClass), false, 1)
  }

  /** accumulate against the seed found for the pattern, if any. */
  function Next(matching: Option<GlyphSeed>, o: Observation): Option<GlyphSeed> {
    if matching.Some? then Some(Updated(matching.value, o))
    else if VerdictOf(o.adjusted) == Incoherent then None
    else Some(Fresh(o))
  }

  /** accumulate: scans for the matching seed, then builds a new one. */
  method Accumulate(o: Observation, seeds: seq<GlyphSeed>) returns (r: Option<GlyphSeed>)
    ensures r == Next(FirstMatch(seeds, o.pattern), o)
  {
    var matching: Option<GlyphSeed> := None;
    for i := 0 to |seeds|
      invariant matching == None
      invariant FirstMatch(seeds, o.pattern) == FirstMatch(seeds[i..], o.pattern)
    {
      assert seeds[i..][1..] == seeds[i + 1..];
      if seeds[i].pattern == o.pattern {
        matching := Some(seeds[i]);
        break;
      }
    }
    if matching == None && VerdictOf(o.adjusted) == Incoherent {
      return None;
    }
    if matching.Some? {
      return Some(Updated(matching.value, o));
    }
    return Some(Fresh(o));
  }

  // ---- Folding over a history ----

  /** The seed after a history of one pattern, threading each returned seed. */
  function Replay(history: seq<Observation>): Option<GlyphSeed> {
    if history == [] then None else Next(Replay(history[..|history| - 1]), history[|history| - 1])
  }

  /** The history after its leading incoherent results. */
  function Counted(history: seq<Observation>): (r: seq<Observation>)
    ensures r != [] ==> VerdictOf(r[0].adjusted) != Incoherent
    ensures |r| <= |history| && r == history[|history| - |r|..]
    ensures forall i :: 0 <= i < |history| - |r| ==> VerdictOf(history[i].adjusted) == Incoherent
  {
    if history == [] || VerdictOf(history[0].adjusted) != Incoherent then history
    else
      var r := Counted(history[1..]);
      assert forall i :: 1 <= i < |history| ==> history[i] == history[1..][i - 1];
      r
  }

  function SumAdjusted(h: seq<Observation>): real {
    if h == [] then 0.0 else SumAdjusted(h[..|h| - 1]) + h[|h| - 1].adjusted
  }

  function SumHits(h: seq<Observation>): real {
    if h == [] then 0.0 else SumHits(h[..|h| - 1]) + Hit(h[|h| - 1])
  }

  lemma {:induction false} CountedAppend(front: seq<Observation>, o: Observation)
    ensures Counted(front + [o])
         == if Counted(front) == [] && VerdictOf(o.adjusted) == Incoherent then [] else Counted(front) + [o]
  {
    if front == [] {
      assert front + [o] == [o] && [o][1..] == [];
    } else if VerdictOf(front[0].adjusted) == Incoherent {
      assert (front + [o])[1..] == front[1..] + [o];
      CountedAppend(front[1..], o);
    }
  }

  /** The seed's statistics are those of the list `h`, exactly. */
  ghost predicate StatsOf(seed: GlyphSeed, h: seq<Observation>) {
    && seed.count == |h|
    && seed.mean * |h| as real == SumAdjusted(h)
    && seed.coherence * |h| as real == SumHits(h)
  }

  /** A first-generation seed of the list `h`. */
  ghost predicate Exact(seed: GlyphSeed, h: seq<Observation>) {
    StatsOf(seed, h) && |h| > 0 && seed.generation == 1
  }

  lemma SumsAppend(h: seq<Observation>, o: Observation)
    ensures SumAdjusted(h + [o]) == SumAdjusted(h) + o.adjusted
    ensures SumHits(h + [o]) == SumHits(h) + Hit(o)
  {
    assert (h + [o])[..|h|] == h;
  }

  /** A running mean, taken one further, times its count. */
  lemma MeanStep(mean: real, n: real, sum: real, x: real, m: real)
    requires mean * n == sum && m > 0.0
    ensures ((mean * n + x) / m) * m == sum + x
  {
    QuotientTimes(mean * n + x, m);
  }

  /** What the update does to the two means, times the new count. */
  lemma UpdatedMeans(seed: GlyphSeed, o: Observation, sum: real, hits: real)
    requires seed.mean * seed.count as real == sum && seed.coherence * seed.count as real == hits
    ensures Updated(seed, o).mean * Updated(seed, o).count as real == sum + o.adjusted
    ensures Updated(seed, o).coherence * Updated(seed, o).count as real == hits + Hit(o)
  {
    var n, m := seed.count as real, (seed.count + 1) as real;
    MeanStep(seed.mean, n, sum, o.adjusted, m);
    MeanStep(seed.coherence, n, hits, Hit(o), m);
  }

  lemma StatsFrom(seed: GlyphSeed, h: seq<Observation>, sum: real, hits: real)
    requires seed.count == |h| && sum == SumAdjusted(h) && hits == SumHits(h)
    requires seed.mean * seed.count as real == sum && seed.coherence * seed.count as real == hits
    ensures StatsOf(seed, h)
  {
  }

  lemma UpdatedStats(seed: GlyphSeed, h: seq<Observation>, o: Observation)
    requires StatsOf(seed, h)
    ensures StatsOf(Updated(seed, o), h + [o])
  {
    SumsAppend(h, o);
    UpdatedMeans(seed, o, SumAdjusted(h), SumHits(h));
    StatsFrom(Updated(seed, o), h + [o], SumAdjusted(h) + o.adjusted, SumHits(h) + Hit(o));
  }

  lemma FreshIsExact(o: Observation)
    ensures Exact(Fresh(o), [o])
  {
    SumsAppend([], o);
    assert [] + [o] == [o];
  }

  /** One more observation, against a seed that is exact for the list so far. */
  lemma NextIsExact(matching: Option<GlyphSeed>, h: seq<Observation>, o: Observation)
    requires if h == [] then matching == None else matching.Some? && Exact(matching.value, h)
    ensures h == [] && VerdictOf(o.adjusted) == Incoherent ==> Next(matching, o) == None
    ensures h != [] || VerdictOf(o.adjusted) != Incoherent ==>
      Next(matching, o).Some? && Exact(Next(matching, o).value, h + [o])
  {
    if h == [] {
      FreshIsExact(o);
      assert h + [o] == [o];
    } else {
      UpdatedStats(matching.value, h, o);
    }
  }

  /** The seed exists exactly when something counts, and its statistics are exact. */
  lemma {:induction false} ReplayIsExact(history: seq<Observation>)
    ensures Replay(history).Some? <==> Counted(history) != []
    ensures Replay(history).Some? ==> Exact(Replay(history).value, Counted(history))
  {
    if history != [] {
      var front, o := history[..|history| - 1], history[|history| - 1];
      assert history == front + [o];
      ReplayIsExact(front);
      CountedAppend(front, o);
      NextIsExact(Replay(front), Counted(front), o);
    }
  }

  /** Every coherent result scores at least 0.75 and every other one below it. */
  lemma {:induction false} SumsBounds(h: seq<Observation>)
    requires forall o :: o in h ==> ValidObservation(o)
    ensures 0.0 <= SumHits(h) <= |h| as real
    ensures 0.75 * SumHits(h) <= SumAdjusted(h) <= 0.75 * |h| as real + 0.25 * SumHits(h)
  {
    if h != [] {
      assert h[|h| - 1] in h && forall o :: o in h[..|h| - 1] ==> o in h;
      SumsBounds(h[..|h| - 1]);
    }
  }

  lemma MeanBounds(mean: real, coherence: real, n: real, sum: real, hits: real)
    requires n > 0.0 && mean * n == sum && coherence * n == hits
    requires 0.0 <= hits <= n && 0.75 * hits <= sum <= 0.75 * n + 0.25 * hits
    ensures 0.0 <= coherence <= 1.0 && 0.75 * coherence <= mean <= 0.75 + 0.25 * coherence
  {
    CancelFactor(0.0, coherence, n);
    CancelFactor(coherence, 1.0, n);
    CancelFactor(0.75 * coherence, mean, n);
    CancelFactor(mean, 0.75 + 0.25 * coherence, n);
  }

  lemma ExactTracks(seed: GlyphSeed, h: seq<Observation>)
    requires StatsOf(seed, h) && |h| > 0 && forall o :: o in h ==> ValidObservation(o)
    ensures 0.0 <= seed.coherence <= 1.0
    ensures 0.75 * seed.coherence <= seed.mean <= 0.75 + 0.25 * seed.coherence
  {
    SumsBounds(h);
    MeanBounds(seed.mean, seed.coherence, |h| as real, SumAdjusted(h), SumHits(h));
  }

  /** Mean and coherence constrain each other in every history. */
  lemma MeanTracksCoherence(history: seq<Observation>)
    requires forall o :: o in history ==> ValidObservation(o)
    requires Replay(history).Some?
    ensures var seed := Replay(history).value;
      && 0.0 <= seed.coherence <= 1.0
      && 0.75 * seed.coherence <= seed.mean <= 0.75 + 0.25 * seed.coherence
  {
    ReplayIsExact(history);
    forall o | o in Counted(history) ensures ValidObservation(o) {
      assert o in history;
    }
    ExactTracks(Replay(history).value, Counted(history));
  }

  // ---- Crystallization ----

  function RequiredCount(generation: nat): int {
    if 10 + 5 * (generation - 1) < 50 then 10 + 5 * (generation - 1) else 50
  }

  function RequiredMean(generation: nat): real {
    Smaller(0.95, 0.70 + 0.05 * (generation as real - 1.0))
  }

  function RequiredCoherence(generation: nat): real {
    Smaller(0.90, 0.65 + 0.05 * (generation as real - 1.0))
  }

  /** `int(generation or 1)`. */
  function Generation(seed: GlyphSeed): nat {
    if seed.generation == 0 then 1 else seed.generation
  }

  predicate MayCrystallize(seed: GlyphSeed) {
    && !seed.crystallized
    && seed.count >= RequiredCount(Generation(seed))
    && seed.mean >= RequiredMean(Generation(seed))
    && seed.coherence >= RequiredCoherence(Generation(seed))
    && seed.effectClass.Some?
  }

  /** No generation crystallizes with fewer than 10 observations, a mean below 0.70 or a
      coherence below 0.65; and every generation asks at least what the one before asked. */
  lemma CrystallizationBar(seed: GlyphSeed)
    ensures MayCrystallize(seed) ==> seed.count >= 10 && seed.mean >= 0.70 && seed.coherence >= 0.65
    ensures MayCrystallize(seed) && Generation(seed) > 1 ==>
      MayCrystallize(seed.(generation := (Generation(seed) - 1) as nat))
  {
    var g := Generation(seed);
    assert g as real >= 1.0;
    if g > 1 {
      var lower := seed.(generation := (g - 1) as nat);
      assert Generation(lower) == g - 1;
      assert (g - 1) as real == g as real - 1.0;
    }
  }

  /** The list `h` clears the bar of a generation. */
  ghost predicate Backs(h: seq<Observation>, generation: nat) {
    && |h| >= RequiredCount(generation)
    && SumAdjusted(h) >= RequiredMean(generation) * |h| as real
    && SumHits(h) >= RequiredCoherence(generation) * |h| as real
  }

  lemma MeanClears(mean: real, n: real, sum: real, bound: real)
    requires mean * n == sum && mean >= bound && n >= 0.0
    ensures sum >= bound * n
  {
    ProductsOrder(n, bound, mean);
  }

  /** A seed that may crystallize is backed by what it counts. */
  lemma CrystallizesBacked(seed: GlyphSeed, h: seq<Observation>)
    requires StatsOf(seed, h) && MayCrystallize(seed)
    ensures Backs(h, Generation(seed)) && |h| >= 10
  {
    assert RequiredCount(Generation(seed)) >= 10;
    MeanClears(seed.mean, |h| as real, SumAdjusted(h), RequiredMean(Generation(seed)));
    MeanClears(seed.coherence, |h| as real, SumHits(h), RequiredCoherence(Generation(seed)));
  }

  lemma ExactShares(seed: GlyphSeed, h: seq<Observation>)
    requires Exact(seed, h) && seed.mean >= 0.70 && seed.coherence >= 0.65
    ensures SumHits(h) >= 0.65 * |h| as real && SumAdjusted(h) >= 0.70 * |h| as real
  {
    Shares(seed.mean, seed.coherence, |h| as real);
  }

  /** A history can crystallize only if at least 10 results count, at least 65% of them
      coherent, with a mean of at least 0.70. */
  lemma CrystallizedHistory(history: seq<Observation>)
    requires Replay(history).Some? && MayCrystallize(Replay(history).value)
    ensures var h := Counted(history);
      |h| >= 10 && SumHits(h) >= 0.65 * |h| as real && SumAdjusted(h) >= 0.70 * |h| as real
  {
    ReplayIsExact(history);
    CrystallizationBar(Replay(history).value);
    ExactShares(Replay(history).value, Counted(history));
  }

  lemma Shares(mean: real, coherence: real, n: real)
    requires mean >= 0.70 && coherence >= 0.65 && n >= 0.0
    ensures coherence * n >= 0.65 * n && mean * n >= 0.70 * n
  {
    ProductsOrder(n, 0.65, coherence);
    ProductsOrder(n, 0.70, mean);
  }

  /** crystallize: the seed's pattern, if it clears the bar; composing the pattern may fail. */
  function Crystallize(seed: GlyphSeed, compose: Pattern -> Option<Vector>): Result<Option<Vector>, string> {
    if !MayCrystallize(seed) then Success(None)
    else if compose(seed.pattern).None? then Failure("no defined resolution for aspect combination")
    else Success(compose(seed.pattern))
  }

  /** What a crystallized seed is written back as. */
  function Restarted(seed: GlyphSeed): GlyphSeed {
    seed.(count := 0, mean := 0.0, coherence := 0.0, crystallized := false, generation := Generation(seed) + 1)
  }

  // ---- The bar and the seed in plain numbers ----

  lemma SmallerIsReached(x: real, a: real, b: real)
    ensures x >= Smaller(a, b) <==> x >= a || x >= b
  {
  }

  /** The bar of a generation: 10 results, a mean of 0.70 and a share of 0.65 coherent at first; 5
      results and 0.05 of each more for every further generation, up to 50, 0.95 and 0.90. */
  lemma BarExactly(seed: GlyphSeed, g: real)
    requires seed.generation > 0 && g == seed.generation as real
    ensures MayCrystallize(seed) <==>
      && !seed.crystallized && seed.effectClass.Some?
      && (seed.count >= 50 || seed.count >= 10 + 5 * (seed.generation - 1))
      && (seed.mean >= 0.95 || seed.mean >= 0.70 + 0.05 * (g - 1.0))
      && (seed.coherence >= 0.90 || seed.coherence >= 0.65 + 0.05 * (g - 1.0))
  {
    SmallerIsReached(seed.mean, 0.95, 0.70 + 0.05 * (g - 1.0));
    SmallerIsReached(seed.coherence, 0.90, 0.65 + 0.05 * (g - 1.0));
  }

  /** A generation that is not set counts as the first. */
  lemma UnsetGeneration(seed: GlyphSeed)
    requires seed.generation == 0
    ensures MayCrystallize(seed) <==> MayCrystallize(seed.(generation := 1))
  {
  }

  /** What is handed out: nothing below the bar, else what the pattern composes to. */
  lemma CrystallizeExactly(seed: GlyphSeed, compose: Pattern -> Option<Vector>)
    ensures Crystallize(seed, compose).Success? && Crystallize(seed, compose).value.Some? <==>
      MayCrystallize(seed) && compose(seed.pattern).Some?
    ensures Crystallize(seed, compose).Failure? <==> MayCrystallize(seed) && compose(seed.pattern).None?
    ensures Crystallize(seed, compose).Success? && Crystallize(seed, compose).value.Some? ==>
      Crystallize(seed, compose).value == compose(seed.pattern)
  {
  }

  /** The sums add up over parts, and of one observation are its score, and one if it is at
      least 0.75. */
  lemma {:induction false} SumsConcat(a: seq<Observation>, b: seq<Observation>)
    ensures SumAdjusted(a + b) == SumAdjusted(a) + SumAdjusted(b)
    ensures SumHits(a + b) == SumHits(a) + SumHits(b)
  {
    if b == [] {
      assert a + b == a;
    } else {
      var front, last := b[..|b| - 1], b[|b| - 1];
      SumsConcat(a, front);
      assert (a + b)[..|a + b| - 1] == a + front;
    }
  }

  lemma SumsOfOne(o: Observation)
    ensures SumAdjusted([o]) == o.adjusted
    ensures SumHits([o]) == if o.adjusted >= 0.75 then 1.0 else 0.0
  {
    SumsAppend([], o);
    assert [] + [o] == [o];
  }

  /** The seed found is the first of its pattern. */
  lemma {:induction false} FirstMatchIsFirst(seeds: seq<GlyphSeed>, pattern: Pattern) returns (i: nat)
    requires exists seed :: seed in seeds && seed.pattern == pattern
    ensures i < |seeds| && FirstMatch(seeds, pattern) == Some(seeds[i]) && seeds[i].pattern == pattern
    ensures forall j :: 0 <= j < i ==> seeds[j].pattern != pattern
  {
    if seeds[0].pattern == pattern {
      i := 0;
    } else {
      var seed :| seed in seeds && seed.pattern == pattern;
      assert seed in seeds[1..];
      var k := FirstMatchIsFirst(seeds[1..], pattern);
      i := k + 1;
    }
  }

  /** A seed is of the first result counted: a score of at least 0.45, its pattern and its class
      of effects. */
  lemma {:induction false} ReplayShows(history: seq<Observation>)
    requires Replay(history).Some?
    ensures var seed, h := Replay(history).value, Counted(history);
      && h != [] && h[0].adjusted >= 0.45
      && (forall i :: 0 <= i < |history| - |h| ==> history[i].adjusted < 0.45)
      && seed.pattern == h[0].pattern && seed.effectClass == Some(h[0].effectClass)
      && !seed.crystallized && seed.generation == 1
  {
    var front, o := history[..|history| - 1], history[|history| - 1];
    assert history == front + [o];
    ReplayIsExact(history);
    ReplayIsExact(front);
    CountedAppend(front, o);
    if Replay(front).Some? {
      ReplayShows(front);
    }
  }

  ghost predicate Reaches(sum: real, top: real, bar: real, n: real) {
    sum >= top * n || sum >= bar * n
  }

  lemma SumReaches(sum: real, top: real, bar: real, n: real, required: real)
    requires n >= 0.0 && required == Smaller(top, bar)
    ensures Reaches(sum, top, bar, n) <==> sum >= required * n
  {
    if top <= bar {
      ProductsOrder(n, top, bar);
    } else {
      ProductsOrder(n, bar, top);
    }
  }

  /** The bars of a generation. */
  ghost predicate Bars(generation: nat, mean: real, coherence: real) {
    && generation > 0
    && mean == 0.70 + 0.05 * (generation as real - 1.0) && coherence == 0.65 + 0.05 * (generation as real - 1.0)
  }

  lemma RequiredBars(generation: nat, mean: real, coherence: real)
    requires Bars(generation, mean, coherence)
    ensures RequiredMean(generation) == Smaller(0.95, mean)
    ensures RequiredCoherence(generation) == Smaller(0.90, coherence)
  {
  }

  lemma BacksBy(h: seq<Observation>, generation: nat, mean: real, coherence: real) returns (m: bool, c: bool)
    requires Bars(generation, mean, coherence)
    ensures m <==> Reaches(SumAdjusted(h), 0.95, mean, |h| as real)
    ensures c <==> Reaches(SumHits(h), 0.90, coherence, |h| as real)
    ensures Backs(h, generation) <==> (|h| >= 50 || |h| >= 10 + 5 * (generation - 1)) && m && c
  {
    RequiredBars(generation, mean, coherence);
    SumReaches(SumAdjusted(h), 0.95, mean, |h| as real, RequiredMean(generation));
    SumReaches(SumHits(h), 0.90, coherence, |h| as real, RequiredCoherence(generation));
    m, c := SumAdjusted(h) >= RequiredMean(generation) * |h| as real,
            SumHits(h) >= RequiredCoherence(generation) * |h| as real;
  }

  /** The bar, told by what is counted. */
  lemma BacksExactly(h: seq<Observation>, generation: nat, mean: real, coherence: real)
    requires Bars(generation, mean, coherence)
    ensures Backs(h, generation) <==>
      && (|h| >= 50 || |h| >= 10 + 5 * (generation - 1))
      && Reaches(SumAdjusted(h), 0.95, mean, |h| as real) && Reaches(SumHits(h), 0.90, coherence, |h| as real)
  {
    var m, c := BacksBy(h, generation, mean, coherence);
  }

  lemma MeanReaches(mean: real, n: real, sum: real, bound: real)
    requires n > 0.0 && mean * n == sum
    ensures mean >= bound <==> sum >= bound * n
  {
    if mean >= bound {
      ProductsOrder(n, bound, mean);
    }
    if sum >= bound * n {
      CancelFactor(bound, mean, n);
    }
  }

  /** A seed not yet crystallized, with a class of effects, may crystallize exactly when what it
      counts backs it. */
  lemma CrystallizesExactly(seed: GlyphSeed, h: seq<Observation>)
    requires StatsOf(seed, h) && h != [] && !seed.crystallized && seed.effectClass.Some?
    ensures MayCrystallize(seed) <==> Backs(h, Generation(seed))
  {
    MeanReaches(seed.mean, |h| as real, SumAdjusted(h), RequiredMean(Generation(seed)));
    MeanReaches(seed.coherence, |h| as real, SumHits(h), RequiredCoherence(Generation(seed)));
  }
}
