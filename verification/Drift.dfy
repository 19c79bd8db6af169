/** tool_lineage_drift of vermyth/mcp/tools/drift.py: the walk up a lineage chain
    and the drift it accumulates. */
module Drift {
  import opened Reals
  import opened Wrappers
  import opened Vectors
  import opened SemanticVectors

  /** A stored cast: its vector and, unless it is a root, its parent. */
  datatype Cast = Cast(id: string, vector: SemanticVector, parent: Option<string>)

  type Casts = map<string, Cast>

  type Reports = map<string, DivergenceReport>

  ghost predicate ValidCasts(casts: Casts) {
    forall id :: id in casts ==> casts[id].id == id
  }

  /** Consecutive casts of a chain are parent and child, and only the first can be a root. */
  ghost predicate IsChain(casts: Casts, chain: seq<Cast>) {
    && (forall i :: 0 <= i < |chain| ==> chain[i].id in casts && casts[chain[i].id] == chain[i])
    && (forall i :: 0 < i < |chain| ==> chain[i].parent == Some(chain[i - 1].id))
  }

  /** The casts of a chain that have a parent: all of it, or all but a root. */
  function Hops(chain: seq<Cast>): (hops: seq<Cast>) {
    if chain != [] && chain[0].parent == None then chain[1..] else chain
  }

  /** The L2 drift counted for a hop: the stored report's, else a fresh one's, else 0. */
  function HopL2(sqrt: real -> real, casts: Casts, reports: Reports, hop: Cast): real {
    if hop.id in reports then reports[hop.id].l2
    else if hop.parent.Some? && hop.parent.value in casts then
      Distance(sqrt, hop.vector.components, casts[hop.parent.value].vector.components)
    else 0.0
  }

  function HopCosine(sqrt: real -> real, casts: Casts, reports: Reports, hop: Cast): real {
    if hop.id in reports then reports[hop.id].cosineDistance
    else if hop.parent.Some? && hop.parent.value in casts then
      1.0 - Cosine(sqrt, casts[hop.parent.value].vector.components, hop.vector.components)
    else 0.0
  }

  function Sum(xs: seq<real>): real {
    if xs == [] then 0.0 else Sum(xs[..|xs| - 1]) + xs[|xs| - 1]
  }

  function Largest(xs: seq<real>): real {
    if xs == [] then 0.0
    else
      var front, last := Largest(xs[..|xs| - 1]), xs[|xs| - 1];
      if last > front then last else front
  }

  function L2s(sqrt: real -> real, casts: Casts, reports: Reports, hops: seq<Cast>): (r: seq<real>)
    ensures |r| == |hops| && forall i :: 0 <= i < |hops| ==> r[i] == HopL2(sqrt, casts, reports, hops[i])
  {
    seq(|hops|, i requires 0 <= i < |hops| => HopL2(sqrt, casts, reports, hops[i]))
  }

  function Cosines(sqrt: real -> real, casts: Casts, reports: Reports, hops: seq<Cast>): (r: seq<real>)
    ensures |r| == |hops| && forall i :: 0 <= i < |hops| ==> r[i] == HopCosine(sqrt, casts, reports, hops[i])
  {
    seq(|hops|, i requires 0 <= i < |hops| => HopCosine(sqrt, casts, reports, hops[i]))
  }

  /** The chain that ends in `id`: it stops below `maxDepth` casts only at a root. */
  ghost predicate Lineage(casts: Casts, chain: seq<Cast>, id: string, maxDepth: nat) {
    && IsChain(casts, chain)
    && |chain| <= maxDepth
    && (chain == [] ==> maxDepth == 0)
    && (chain != [] ==> chain[|chain| - 1].id == id)
    && (chain != [] && chain[0].parent != None ==> |chain| == maxDepth)
  }

  /** A chain that ends in `id` and, still below `maxDepth` casts, asks for a cast that is not stored. */
  ghost predicate BrokenLineage(casts: Casts, chain: seq<Cast>, id: string, maxDepth: nat, missing: string) {
    && IsChain(casts, chain)
    && |chain| < maxDepth
    && missing !in casts
    && (if chain == [] then missing == id
        else chain[|chain| - 1].id == id && chain[0].parent == Some(missing))
  }

  /** Two chains up from one cast agree, counted from their common end, as far as both go. */
  lemma {:induction false} ChainsAgree(casts: Casts, a: seq<Cast>, b: seq<Cast>, k: nat)
    requires IsChain(casts, a) && IsChain(casts, b) && k < |a| && k < |b|
    requires a[|a| - 1].id == b[|b| - 1].id
    ensures a[|a| - 1 - k] == b[|b| - 1 - k]
  {
    if k > 0 {
      ChainsAgree(casts, a, b, k - 1);
      assert a[|a| - k].parent == Some(a[|a| - 1 - k].id);
      assert b[|b| - k].parent == Some(b[|b| - 1 - k].id);
    }
  }

  /** A longer chain up from the same cast passes through the start of a shorter one. */
  lemma LongerChain(casts: Casts, a: seq<Cast>, b: seq<Cast>)
    requires IsChain(casts, a) && IsChain(casts, b) && 0 < |a| < |b|
    requires a[|a| - 1].id == b[|b| - 1].id
    ensures a[0].parent.Some? && a[0].parent.value in casts
  {
    var i := |b| - |a|;
    ChainsAgree(casts, a, b, |a| - 1);
    assert a[0] == b[i];
    assert b[i].parent == Some(b[i - 1].id);
  }

  /** A stored cast has one lineage. */
  lemma LineageIsUnique(casts: Casts, a: seq<Cast>, b: seq<Cast>, id: string, maxDepth: nat)
    requires Lineage(casts, a, id, maxDepth) && Lineage(casts, b, id, maxDepth)
    ensures a == b
  {
    if maxDepth > 0 {
      if |a| < |b| {
        LongerChain(casts, a, b);
      } else if |b| < |a| {
        LongerChain(casts, b, a);
      }
      assert |a| == |b|;
      forall i | 0 <= i < |a| ensures a[i] == b[i] {
        ChainsAgree(casts, a, b, |a| - 1 - i);
      }
    }
  }

  /** A broken chain has no lineage, so the walk fails exactly on broken chains. */
  lemma BrokenHasNoLineage(casts: Casts, a: seq<Cast>, b: seq<Cast>, id: string, maxDepth: nat, missing: string)
    requires BrokenLineage(casts, b, id, maxDepth, missing)
    ensures !Lineage(casts, a, id, maxDepth)
  {
    if IsChain(casts, a) && a != [] && b != [] && a[|a| - 1].id == id {
      if |a| < |b| {
        LongerChain(casts, a, b);
      } else if |b| < |a| {
        LongerChain(casts, b, a);
      } else {
        ChainsAgree(casts, a, b, |a| - 1);
      }
    }
  }

  /** The lineage of `castId`, or the cast that is missing from it. */
  method WalkLineage(casts: Casts, castId: string, maxDepth: nat) returns (r: Result<seq<Cast>, string>)
    requires ValidCasts(casts)
    ensures r.Success? ==> Lineage(casts, r.value, castId, maxDepth)
    ensures r.Failure? ==> exists chain :: BrokenLineage(casts, chain, castId, maxDepth, r.error)
  {
    var chain: seq<Cast> := [];
    var current := castId;
    for depth := 0 to maxDepth
      invariant |chain| == depth
      invariant IsChain(casts, chain)
      invariant chain == [] ==> current == castId
      invariant chain != [] ==> chain[|chain| - 1].id == castId && chain[0].parent == Some(current)
    {
      if current !in casts {
        assert BrokenLineage(casts, chain, castId, maxDepth, current);
        return Failure(current);
      }
      chain := [casts[current]] + chain;
      if chain[0].parent == None {
        return Success(chain);
      }
      current := chain[0].parent.value;
    }
    return Success(chain);
  }

  /** The report of one hop: the stored one, a fresh one, or none. */
  method HopReport(sqrt: real -> real, casts: Casts, reports: Reports, t: Thresholds, hop: Cast)
    returns (l2: real, cosine: real)
    requires IsSqrt(sqrt) && ValidThresholds(t) && hop.parent.Some?
    ensures l2 == HopL2(sqrt, casts, reports, hop) && cosine == HopCosine(sqrt, casts, reports, hop)
  {
    if hop.id in reports {
      return reports[hop.id].l2, reports[hop.id].cosineDistance;
    }
    if hop.parent.value in casts {
      var report := Classify(sqrt, casts[hop.parent.value].vector, hop.vector, t);
      return report.l2, report.cosineDistance;
    }
    return 0.0, 0.0;
  }

  datatype Summary = Summary(hops: nat, cumulativeL2: real, cumulativeCosine: real, maxL2: real, maxCosine: real)

  function AddHop(s: Summary, l2: real, cosine: real): Summary {
    Summary(s.hops + 1, s.cumulativeL2 + l2, s.cumulativeCosine + cosine,
            Larger(s.maxL2, l2), Larger(s.maxCosine, cosine))
  }

  function Totals(sqrt: real -> real, casts: Casts, reports: Reports, hops: seq<Cast>): Summary {
    if hops == [] then Summary(0, 0.0, 0.0, 0.0, 0.0)
    else
      var last := hops[|hops| - 1];
      AddHop(Totals(sqrt, casts, reports, hops[..|hops| - 1]),
             HopL2(sqrt, casts, reports, last), HopCosine(sqrt, casts, reports, last))
  }

  lemma AppendSums(front: seq<real>, x: real, xs: seq<real>)
    requires |xs| == |front| + 1 && xs[|front|] == x && forall i :: 0 <= i < |front| ==> xs[i] == front[i]
    ensures Sum(xs) == Sum(front) + x && Largest(xs) == Larger(Largest(front), x)
  {
    assert xs[..|front|] == front;
  }

  lemma {:induction false} TotalsOfL2(sqrt: real -> real, casts: Casts, reports: Reports, hops: seq<Cast>)
    ensures var totals := Totals(sqrt, casts, reports, hops);
      && totals.hops == |hops|
      && totals.cumulativeL2 == Sum(L2s(sqrt, casts, reports, hops))
      && totals.maxL2 == Largest(L2s(sqrt, casts, reports, hops))
  {
    if hops != [] {
      var front, last := hops[..|hops| - 1], hops[|hops| - 1];
      TotalsOfL2(sqrt, casts, reports, front);
      AppendSums(L2s(sqrt, casts, reports, front), HopL2(sqrt, casts, reports, last), L2s(sqrt, casts, reports, hops));
    }
  }

  lemma {:induction false} TotalsOfCosine(sqrt: real -> real, casts: Casts, reports: Reports, hops: seq<Cast>)
    ensures var totals := Totals(sqrt, casts, reports, hops);
      && totals.cumulativeCosine == Sum(Cosines(sqrt, casts, reports, hops))
      && totals.maxCosine == Largest(Cosines(sqrt, casts, reports, hops))
  {
    if hops != [] {
      var front, last := hops[..|hops| - 1], hops[|hops| - 1];
      TotalsOfCosine(sqrt, casts, reports, front);
      AppendSums(Cosines(sqrt, casts, reports, front), HopCosine(sqrt, casts, reports, last),
                 Cosines(sqrt, casts, reports, hops));
    }
  }

  lemma HopsAppend(casts: Casts, chain: seq<Cast>, i: nat)
    requires IsChain(casts, chain) && i < |chain|
    ensures Hops(chain[..i + 1]) == Hops(chain[..i]) + if chain[i].parent == None then [] else [chain[i]]
  {
    assert i > 0 ==> chain[i].parent == Some(chain[i - 1].id);
    assert chain[..i + 1] == chain[..i] + [chain[i]];
  }

  lemma TotalsAppend(sqrt: real -> real, casts: Casts, reports: Reports, hops: seq<Cast>, hop: Cast)
    ensures Totals(sqrt, casts, reports, hops + [hop])
         == AddHop(Totals(sqrt, casts, reports, hops),
                   HopL2(sqrt, casts, reports, hop), HopCosine(sqrt, casts, reports, hop))
  {
    assert (hops + [hop])[..|hops|] == hops;
  }

  /** The loop over a chain. */
  method SummariseChain(sqrt: real -> real, casts: Casts, reports: Reports, t: Thresholds, chain: seq<Cast>)
    returns (r: Summary)
    requires IsSqrt(sqrt) && ValidThresholds(t) && IsChain(casts, chain)
    ensures r == Totals(sqrt, casts, reports, Hops(chain))
  {
    r := Summary(0, 0.0, 0.0, 0.0, 0.0);
    for i := 0 to |chain|
      invariant r == Totals(sqrt, casts, reports, Hops(chain[..i]))
    {
      var cr := chain[i];
      HopsAppend(casts, chain, i);
      if cr.parent == None {
        continue;
      }
      var l2, cosine := HopReport(sqrt, casts, reports, t, cr);
      TotalsAppend(sqrt, casts, reports, Hops(chain[..i]), cr);
      r := AddHop(r, l2, cosine);
    }
    assert chain[..|chain|] == chain;
  }

  /** The drift summary of the lineage chain of `castId`, before rounding. */
  method LineageDrift(sqrt: real -> real, casts: Casts, reports: Reports, t: Thresholds, castId: string, maxDepth: nat)
    returns (r: Result<Summary, string>, ghost chain: seq<Cast>)
    requires IsSqrt(sqrt) && ValidThresholds(t) && ValidCasts(casts)
    ensures r.Success? ==> Lineage(casts, chain, castId, maxDepth)
    ensures r.Failure? ==> exists broken :: BrokenLineage(casts, broken, castId, maxDepth, r.error)
    ensures r.Success? ==> r.value == Summary(
      |Hops(chain)|,
      Sum(L2s(sqrt, casts, reports, Hops(chain))), Sum(Cosines(sqrt, casts, reports, Hops(chain))),
      Largest(L2s(sqrt, casts, reports, Hops(chain))), Largest(Cosines(sqrt, casts, reports, Hops(chain))))
  {
    var walked := WalkLineage(casts, castId, maxDepth);
    chain := [];
    if walked.Failure? {
      return Failure(walked.error), chain;
    }
    chain := walked.value;
    var summary := SummariseChain(sqrt, casts, reports, t, walked.value);
    TotalsOfL2(sqrt, casts, reports, Hops(chain));
    TotalsOfCosine(sqrt, casts, reports, Hops(chain));
    r := Success(summary);
  }

  /** Every hop's parent is stored, and its report, if stored, is what classify gives. */
  ghost predicate Faithful(sqrt: real -> real, casts: Casts, reports: Reports, hops: seq<Cast>) {
    forall i :: 0 <= i < |hops| ==>
      && hops[i].parent.Some? && hops[i].parent.value in casts
      && HopL2(sqrt, casts, reports, hops[i])
           == Distance(sqrt, hops[i].vector.components, casts[hops[i].parent.value].vector.components)
  }

  ghost predicate ChildOf(casts: Casts, child: Cast, parent: Cast) {
    child.parent.Some? && child.parent.value in casts && casts[child.parent.value] == parent
  }

  /** Consecutive hops: each hop's parent is the hop before it. */
  ghost predicate Consecutive(casts: Casts, hops: seq<Cast>) {
    forall i, j :: 0 <= i < |hops| && 0 <= j < |hops| && j == i + 1 ==> ChildOf(casts, hops[j], hops[i])
  }

  lemma HopsAreConsecutive(casts: Casts, chain: seq<Cast>)
    requires IsChain(casts, chain)
    ensures Consecutive(casts, Hops(chain))
    ensures forall i :: 0 <= i < |Hops(chain)| ==> Hops(chain)[i].parent.Some?
    ensures Hops(chain) != [] ==> Destination(Hops(chain)) == chain[|chain| - 1].vector.components
  {
    var skipped := |chain| - |Hops(chain)|;
    forall i | 0 <= i < |Hops(chain)| ensures Hops(chain)[i] == chain[i + skipped] && Hops(chain)[i].parent.Some? {
      var k := i + skipped;
      assert k > 0 ==> chain[k].parent == Some(chain[k - 1].id);
    }
    forall i, j | 0 <= i < |Hops(chain)| && 0 <= j < |Hops(chain)| && j == i + 1
      ensures ChildOf(casts, Hops(chain)[j], Hops(chain)[i])
    {
      assert chain[j + skipped].parent == Some(chain[j + skipped - 1].id);
    }
  }

  /** The vector the first hop starts from. */
  function Origin(casts: Casts, hops: seq<Cast>): Vector {
    if hops != [] && hops[0].parent.Some? && hops[0].parent.value in casts then
      casts[hops[0].parent.value].vector.components
    else []
  }

  /** The vector the last hop arrives at. */
  function Destination(hops: seq<Cast>): Vector {
    if hops != [] then hops[|hops| - 1].vector.components else []
  }

  /** Minkowski along the chain. */
  lemma {:induction false} SumDominates(sqrt: real -> real, casts: Casts, reports: Reports, hops: seq<Cast>)
    requires IsSqrt(sqrt) && hops != []
    requires Consecutive(casts, hops) && Faithful(sqrt, casts, reports, hops)
    ensures Distance(sqrt, Destination(hops), Origin(casts, hops)) <= Sum(L2s(sqrt, casts, reports, hops))
  {
    var last := |hops| - 1;
    var xs := L2s(sqrt, casts, reports, hops);
    var origin := Origin(casts, hops);
    assert xs[..last] == L2s(sqrt, casts, reports, hops[..last]);
    if last > 0 {
      SumDominates(sqrt, casts, reports, hops[..last]);
      assert ChildOf(casts, hops[last], hops[last - 1]);
      Triangle(sqrt, hops[last].vector.components, hops[last - 1].vector.components, origin);
    } else {
      assert xs[..last] == [];
    }
  }

  lemma {:induction false} SumBounds(xs: seq<real>)
    requires forall i :: 0 <= i < |xs| ==> xs[i] >= 0.0
    ensures 0.0 <= Largest(xs) <= Sum(xs) <= |xs| as real * Largest(xs)
  {
    if xs != [] {
      var front := xs[..|xs| - 1];
      SumBounds(front);
      var n, small, large := |front| as real, Largest(front), Largest(xs);
      assert small <= large;
      ProductsOrder(n, small, large);
      assert |xs| as real * large == n * large + large;
    }
  }

  /** The field constraints of a stored report. */
  ghost predicate ValidReports(reports: Reports) {
    forall id :: id in reports ==> reports[id].l2 >= 0.0 && 0.0 <= reports[id].cosineDistance <= 2.0
  }

  lemma HopNonNegative(sqrt: real -> real, casts: Casts, reports: Reports, hop: Cast)
    requires IsSqrt(sqrt) && ValidReports(reports)
    ensures HopL2(sqrt, casts, reports, hop) >= 0.0 && HopCosine(sqrt, casts, reports, hop) >= 0.0
  {
    if hop.parent.Some? && hop.parent.value in casts {
      var parent := casts[hop.parent.value];
      NormSquare(sqrt, Difference(hop.vector.components, parent.vector.components));
      CosineInRange(sqrt, parent.vector.components, hop.vector.components);
    }
  }

  /** Cumulative drift dominates the distance from the first hop's parent to the queried cast. */
  lemma CumulativeDominatesEndToEnd(sqrt: real -> real, casts: Casts, reports: Reports, chain: seq<Cast>)
    requires IsSqrt(sqrt) && IsChain(casts, chain) && Hops(chain) != []
    requires Faithful(sqrt, casts, reports, Hops(chain))
    ensures Destination(Hops(chain)) == chain[|chain| - 1].vector.components
    ensures Distance(sqrt, Destination(Hops(chain)), Origin(casts, Hops(chain)))
         <= Sum(L2s(sqrt, casts, reports, Hops(chain)))
  {
    HopsAreConsecutive(casts, chain);
    SumDominates(sqrt, casts, reports, Hops(chain));
  }

  lemma L2Bounds(sqrt: real -> real, casts: Casts, reports: Reports, hops: seq<Cast>)
    requires IsSqrt(sqrt) && ValidReports(reports)
    ensures var xs := L2s(sqrt, casts, reports, hops);
      Largest(xs) <= Sum(xs) <= |hops| as real * Largest(xs)
  {
    forall i | 0 <= i < |hops| ensures HopL2(sqrt, casts, reports, hops[i]) >= 0.0 {
      HopNonNegative(sqrt, casts, reports, hops[i]);
    }
    SumBounds(L2s(sqrt, casts, reports, hops));
  }

  lemma CosineBounds(sqrt: real -> real, casts: Casts, reports: Reports, hops: seq<Cast>)
    requires IsSqrt(sqrt) && ValidReports(reports)
    ensures var xs := Cosines(sqrt, casts, reports, hops);
      Largest(xs) <= Sum(xs) <= |hops| as real * Largest(xs)
  {
    forall i | 0 <= i < |hops| ensures HopCosine(sqrt, casts, reports, hops[i]) >= 0.0 {
      HopNonNegative(sqrt, casts, reports, hops[i]);
    }
    SumBounds(Cosines(sqrt, casts, reports, hops));
  }

  /** Cumulative drift, by either measure, is at least the largest hop's and at most the number
      of hops times it. */
  lemma CumulativeAndLargestHop(sqrt: real -> real, casts: Casts, reports: Reports, hops: seq<Cast>)
    requires IsSqrt(sqrt) && ValidReports(reports)
    ensures var xs := L2s(sqrt, casts, reports, hops);
      Largest(xs) <= Sum(xs) <= |hops| as real * Largest(xs)
    ensures var xs := Cosines(sqrt, casts, reports, hops);
      Largest(xs) <= Sum(xs) <= |hops| as real * Largest(xs)
  {
    L2Bounds(sqrt, casts, reports, hops);
    CosineBounds(sqrt, casts, reports, hops);
  }

  // ---- What is summed, in plain terms ----

  /** Sums add up over parts, and of one number are that number. */
  lemma {:induction false} SumConcat(a: seq<real>, b: seq<real>)
    ensures Sum(a + b) == Sum(a) + Sum(b)
  {
    if b == [] {
      assert a + b == a;
    } else {
      var front, last := b[..|b| - 1], b[|b| - 1];
      SumConcat(a, front);
      assert (a + b)[..|a + b| - 1] == a + front;
    }
  }

  lemma SumOfOne(x: real)
    ensures Sum([x]) == x && Sum([]) == 0.0
  {
    assert [x][..0] == [];
  }

  /** The largest of some numbers and 0. */
  lemma {:induction false} LargestExactly(xs: seq<real>)
    ensures Largest(xs) >= 0.0 && forall x :: x in xs ==> x <= Largest(xs)
    ensures Largest(xs) == 0.0 || Largest(xs) in xs
  {
    if xs != [] {
      LargestExactly(xs[..|xs| - 1]);
      assert xs == xs[..|xs| - 1] + [xs[|xs| - 1]];
    }
  }

  /** What counts for a hop: the stored report, if there is one, else the distances from the
      stored parent, else nothing. */
  lemma HopExactly(sqrt: real -> real, casts: Casts, reports: Reports, hop: Cast)
    ensures hop.id in reports ==>
      && HopL2(sqrt, casts, reports, hop) == reports[hop.id].l2
      && HopCosine(sqrt, casts, reports, hop) == reports[hop.id].cosineDistance
    ensures hop.id !in reports && hop.parent.Some? && hop.parent.value in casts ==>
      var parent := casts[hop.parent.value].vector.components;
      && HopL2(sqrt, casts, reports, hop) == Distance(sqrt, parent, hop.vector.components)
      && HopCosine(sqrt, casts, reports, hop) == 1.0 - Cosine(sqrt, hop.vector.components, parent)
    ensures hop.id !in reports && (hop.parent.Some? ==> hop.parent.value !in casts) ==>
      HopL2(sqrt, casts, reports, hop) == 0.0 == HopCosine(sqrt, casts, reports, hop)
  {
    if hop.parent.Some? && hop.parent.value in casts {
      DistanceIsSymmetric(sqrt, hop.vector.components, casts[hop.parent.value].vector.components);
      CosineIsSymmetric(sqrt, hop.vector.components, casts[hop.parent.value].vector.components);
    }
  }

  /** Every cast of a chain is a hop, but for a root. */
  lemma HopsExactly(casts: Casts, chain: seq<Cast>)
    requires IsChain(casts, chain)
    ensures forall c :: c in Hops(chain) <==> c in chain && c.parent.Some?
    ensures |Hops(chain)| == if chain != [] && chain[0].parent.None? then |chain| - 1 else |chain|
  {
    forall c | c in Hops(chain) ensures c in chain && c.parent.Some? {
      var i :| 0 <= i < |Hops(chain)| && Hops(chain)[i] == c;
      var k := i + |chain| - |Hops(chain)|;
      assert chain[k] == c;
      assert k > 0 ==> chain[k].parent == Some(chain[k - 1].id);
    }
    forall c | c in chain && c.parent.Some? ensures c in Hops(chain) {
      var i :| 0 <= i < |chain| && chain[i] == c;
      assert i > 0 ==> chain[i].parent == Some(chain[i - 1].id);
      assert i > 0 ==> chain[1..][i - 1] == c;
    }
  }
}
