/** What the causal search finds, told by the edges alone: chains of stored edges, and the
    same search turned round. */
module CausalLaws {
  import opened Order
  import opened Causal

  // ---- Chains of edges ----

  /** An edge the query is about. */
  ghost predicate Asked(rows: seq<CausalEdge>, q: CausalQuery, e: CausalEdge) {
    e in rows && e.weight >= q.minWeight && (q.kinds == [] || e.kind in q.kinds)
  }

  /** The edge leads from `u` to `v`: with its direction, against it, or either way. */
  ghost predicate Leads(direction: Direction, e: CausalEdge, u: string, v: string) {
    match direction
    case Forward => e.source == u && e.target == v
    case Backward => e.target == u && e.source == v
    case Both => (e.source == u && e.target == v) || (e.target == u && e.source == v)
  }

  /** The edges, one after the other, lead from `u` along the nodes. */
  ghost predicate Chain(rows: seq<CausalEdge>, q: CausalQuery, u: string, nodes: seq<string>, edges: seq<CausalEdge>) {
    && |nodes| == |edges| + 1 && nodes[0] == u
    && forall i :: 0 <= i < |edges| ==>
         Asked(rows, q, edges[i]) && Leads(q.direction, edges[i], nodes[i], nodes[i + 1])
  }

  /** A chain of at most `k` edges leads from the root to `v`. */
  ghost predicate ChainTo(rows: seq<CausalEdge>, q: CausalQuery, k: int, v: string) {
    exists nodes, edges :: Chain(rows, q, q.root, nodes, edges) && |edges| <= k && nodes[|edges|] == v
  }

  /** The edge leads on from `u` to its other end. */
  ghost predicate LeadsOn(rows: seq<CausalEdge>, q: CausalQuery, u: string, e: CausalEdge) {
    Asked(rows, q, e) && exists v :: Leads(q.direction, e, u, v)
  }

  lemma AdmissibleLeadsOn(rows: seq<CausalEdge>, q: CausalQuery, u: string, e: CausalEdge)
    ensures Admissible(rows, q, u, e) <==> LeadsOn(rows, q, u, e)
  {
    if Admissible(rows, q, u, e) {
      assert Leads(q.direction, e, u, e.target) || Leads(q.direction, e, u, e.source);
    }
  }

  lemma StepLeads(rows: seq<CausalEdge>, q: CausalQuery, u: string, v: string) returns (e: CausalEdge)
    requires AdmissibleStep(rows, q, u, v) && u != v
    ensures Asked(rows, q, e) && Leads(q.direction, e, u, v)
  {
    e :| e in rows && Admissible(rows, q, u, e) && Ends(e, v);
  }

  lemma ChainGrows(rows: seq<CausalEdge>, q: CausalQuery, k: int, u: string, e: CausalEdge, v: string)
    requires ChainTo(rows, q, k, u) && Asked(rows, q, e) && Leads(q.direction, e, u, v)
    ensures ChainTo(rows, q, k + 1, v)
  {
    var nodes, edges :| Chain(rows, q, q.root, nodes, edges) && |edges| <= k && nodes[|edges|] == u;
    assert Chain(rows, q, q.root, nodes + [v], edges + [e]);
    assert (nodes + [v])[|edges + [e]|] == v;
  }

  lemma ChainMonotone(rows: seq<CausalEdge>, q: CausalQuery, j: int, k: int, v: string)
    requires ChainTo(rows, q, j, v) && j <= k
    ensures ChainTo(rows, q, k, v)
  {
    var nodes, edges :| Chain(rows, q, q.root, nodes, edges) && |edges| <= j && nodes[|edges|] == v;
    assert |edges| <= k;
  }

  lemma {:induction false} WalkIsChain(rows: seq<CausalEdge>, q: CausalQuery, p: seq<string>)
    requires IsAdmissibleWalk(rows, q, p)
    ensures ChainTo(rows, q, |p| - 1, p[|p| - 1])
  {
    if |p| == 1 {
      assert Chain(rows, q, q.root, p, []);
    } else {
      var front := p[..|p| - 1];
      var u, v := p[|p| - 2], p[|p| - 1];
      assert IsAdmissibleWalk(rows, q, front) by {
        forall i | 0 <= i < |front| - 1 ensures AdmissibleStep(rows, q, front[i], front[i + 1]) {
          assert AdmissibleStep(rows, q, p[i], p[i + 1]);
        }
      }
      WalkIsChain(rows, q, front);
      assert AdmissibleStep(rows, q, p[|p| - 2], p[|p| - 1]);
      if u == v {
        ChainMonotone(rows, q, |p| - 2, |p| - 1, v);
      } else {
        var e := StepLeads(rows, q, u, v);
        ChainGrows(rows, q, |p| - 2, u, e, v);
      }
    }
  }

  lemma ChainIsWalk(rows: seq<CausalEdge>, q: CausalQuery, nodes: seq<string>, edges: seq<CausalEdge>)
    requires Chain(rows, q, q.root, nodes, edges)
    ensures IsAdmissibleWalk(rows, q, nodes)
  {
    forall i | 0 <= i < |nodes| - 1 ensures AdmissibleStep(rows, q, nodes[i], nodes[i + 1]) {
      assert Leads(q.direction, edges[i], nodes[i], nodes[i + 1]);
      assert Admissible(rows, q, nodes[i], edges[i]) && Ends(edges[i], nodes[i + 1]);
    }
  }

  /** The full subgraph is what chains of edges reach, and the edges that lead on from there. */
  lemma AdmissibleByChains(rows: seq<CausalEdge>, q: CausalQuery, k: int, v: string)
    ensures AdmissiblyWithin(rows, q, k, v) <==> ChainTo(rows, q, k, v)
  {
    if AdmissiblyWithin(rows, q, k, v) {
      var p :| IsAdmissibleWalk(rows, q, p) && |p| <= k + 1 && p[|p| - 1] == v;
      WalkIsChain(rows, q, p);
      ChainMonotone(rows, q, |p| - 1, k, v);
    }
    if ChainTo(rows, q, k, v) {
      var nodes, edges :| Chain(rows, q, q.root, nodes, edges) && |edges| <= k && nodes[|edges|] == v;
      ChainIsWalk(rows, q, nodes, edges);
    }
  }

  /** An edge leads on from the end of a chain shorter than the bound. */
  ghost predicate OnChain(rows: seq<CausalEdge>, q: CausalQuery, e: CausalEdge) {
    exists u :: ChainTo(rows, q, q.maxDepth - 1, u) && LeadsOn(rows, q, u, e)
  }

  lemma FullSubgraphByChains(rows: seq<CausalEdge>, q: CausalQuery, e: CausalEdge)
    ensures InFullSubgraph(rows, q, e) <==> OnChain(rows, q, e)
  {
    forall u ensures AdmissiblyWithin(rows, q, q.maxDepth - 1, u) && Admissible(rows, q, u, e)
        <==> ChainTo(rows, q, q.maxDepth - 1, u) && LeadsOn(rows, q, u, e) {
      AdmissibleByChains(rows, q, q.maxDepth - 1, u);
      AdmissibleLeadsOn(rows, q, u, e);
    }
  }

  /** Where the limit cuts off no row that passes the filters, the search finds exactly the
      nodes that chains of at most `maxDepth` edges reach, and the edges they are made of. */
  lemma SearchFindsChains(rows: seq<CausalEdge>, q: CausalQuery)
    requires DistinctEdges(rows) && NoAdmissibleCut(rows, q)
    ensures forall v :: Within(rows, q, q.maxDepth, v) <==> ChainTo(rows, q, q.maxDepth, v)
    ensures forall e :: InSubgraph(rows, q, e) <==> OnChain(rows, q, e)
  {
    SearchIsComplete(rows, q);
    forall v ensures Within(rows, q, q.maxDepth, v) <==> ChainTo(rows, q, q.maxDepth, v) {
      AdmissibleByChains(rows, q, q.maxDepth, v);
    }
    forall e ensures InSubgraph(rows, q, e) <==> OnChain(rows, q, e) {
      FullSubgraphByChains(rows, q, e);
    }
  }

  lemma {:induction false} FewIncident(rows: seq<CausalEdge>, node: string, minWeight: real)
    ensures |Incident(rows, node, minWeight)| <= |rows|
  {
    if rows != [] {
      FewIncident(rows[..|rows| - 1], node, minWeight);
    }
  }

  /** So it does in every table of at most 1000 edges. */
  lemma SmallTableSearch(rows: seq<CausalEdge>, q: CausalQuery)
    requires DistinctEdges(rows) && |rows| <= 1000
    ensures forall v :: Within(rows, q, q.maxDepth, v) <==> ChainTo(rows, q, q.maxDepth, v)
    ensures forall e :: InSubgraph(rows, q, e) <==> OnChain(rows, q, e)
  {
    forall u ensures CutIsInadmissible(rows, q, u) {
      FewIncident(rows, u, q.minWeight);
    }
    SearchFindsChains(rows, q);
  }

  // ---- The search turned round ----

  function Flip(e: CausalEdge): CausalEdge {
    e.(source := e.target, target := e.source)
  }

  function FlipAll(rows: seq<CausalEdge>): (r: seq<CausalEdge>)
    ensures |r| == |rows| && forall i :: 0 <= i < |rows| ==> r[i] == Flip(rows[i])
  {
    seq(|rows|, i requires 0 <= i < |rows| => Flip(rows[i]))
  }

  function Turned(q: CausalQuery): CausalQuery {
    q.(direction := match q.direction case Forward => Backward case Backward => Forward case Both => Both)
  }

  lemma FlippedMember(s: seq<CausalEdge>, e: CausalEdge)
    ensures e in s <==> Flip(e) in FlipAll(s)
  {
    if Flip(e) in FlipAll(s) {
      var i :| 0 <= i < |s| && FlipAll(s)[i] == Flip(e);
      assert Flip(Flip(s[i])) == Flip(Flip(e)) == e;
    }
    if e in s {
      var i :| 0 <= i < |s| && s[i] == e;
      assert FlipAll(s)[i] == Flip(e);
    }
  }

  lemma {:induction false} FlippedIncident(rows: seq<CausalEdge>, node: string, minWeight: real)
    ensures Incident(FlipAll(rows), node, minWeight) == FlipAll(Incident(rows, node, minWeight))
  {
    if rows != [] {
      var front, last := rows[..|rows| - 1], rows[|rows| - 1];
      FlippedIncident(front, node, minWeight);
      assert FlipAll(rows)[..|rows| - 1] == FlipAll(front);
      assert Touches(Flip(last), node, minWeight) <==> Touches(last, node, minWeight);
    }
  }

  lemma FlippedFollows(rows: seq<CausalEdge>, q: CausalQuery, u: string, e: CausalEdge)
    ensures Follows(rows, q, u, e) <==> Follows(FlipAll(rows), Turned(q), u, Flip(e))
  {
    var incident := Incident(rows, u, q.minWeight);
    FlippedIncident(rows, u, q.minWeight);
    FlippedMember(Take(incident, QUERY_LIMIT), e);
    assert FlipAll(Take(incident, QUERY_LIMIT)) == Take(FlipAll(incident), QUERY_LIMIT);
  }

  lemma FlippedStep(rows: seq<CausalEdge>, q: CausalQuery, u: string, v: string)
    requires Steps(rows, q, u, v)
    ensures Steps(FlipAll(rows), Turned(q), u, v)
  {
    var e :| e in rows && Follows(rows, q, u, e) && Ends(e, v);
    FlippedFollows(rows, q, u, e);
    FlippedMember(rows, e);
    assert Ends(Flip(e), v);
  }

  lemma FlippedWithin(rows: seq<CausalEdge>, q: CausalQuery, k: int, v: string)
    requires Within(rows, q, k, v)
    ensures Within(FlipAll(rows), Turned(q), k, v)
  {
    var p :| IsWalk(rows, q, p) && |p| <= k + 1 && p[|p| - 1] == v;
    forall i | 0 <= i < |p| - 1 ensures Steps(FlipAll(rows), Turned(q), p[i], p[i + 1]) {
      assert Steps(rows, q, p[i], p[i + 1]);
      FlippedStep(rows, q, p[i], p[i + 1]);
    }
    assert IsWalk(FlipAll(rows), Turned(q), p);
  }

  lemma FlippedTwice(rows: seq<CausalEdge>, q: CausalQuery)
    ensures FlipAll(FlipAll(rows)) == rows && Turned(Turned(q)) == q
  {
  }

  lemma SameWithin(rows: seq<CausalEdge>, q: CausalQuery, k: int, v: string)
    ensures Within(rows, q, k, v) <==> Within(FlipAll(rows), Turned(q), k, v)
  {
    FlippedTwice(rows, q);
    if Within(rows, q, k, v) {
      FlippedWithin(rows, q, k, v);
    }
    if Within(FlipAll(rows), Turned(q), k, v) {
      FlippedWithin(FlipAll(rows), Turned(q), k, v);
    }
  }

  /** A backward search finds what a forward search finds in the table with every edge turned
      round, the limit included. */
  lemma SearchTurnsRound(rows: seq<CausalEdge>, q: CausalQuery)
    ensures forall v :: Within(rows, q, q.maxDepth, v) <==> Within(FlipAll(rows), Turned(q), q.maxDepth, v)
    ensures forall e :: InSubgraph(rows, q, e) <==> InSubgraph(FlipAll(rows), Turned(q), Flip(e))
  {
    forall v ensures Within(rows, q, q.maxDepth, v) <==> Within(FlipAll(rows), Turned(q), q.maxDepth, v) {
      SameWithin(rows, q, q.maxDepth, v);
    }
    forall e ensures InSubgraph(rows, q, e) <==> InSubgraph(FlipAll(rows), Turned(q), Flip(e)) {
      forall u ensures Within(rows, q, q.maxDepth - 1, u) && Follows(rows, q, u, e)
          <==> Within(FlipAll(rows), Turned(q), q.maxDepth - 1, u) && Follows(FlipAll(rows), Turned(q), u, Flip(e)) {
        SameWithin(rows, q, q.maxDepth - 1, u);
        FlippedFollows(rows, q, u, e);
      }
    }
  }

  // ---- The mean weight ----

  lemma {:induction false} SumWeightsConcat(a: seq<CausalEdge>, b: seq<CausalEdge>)
    ensures SumWeights(a + b) == SumWeights(a) + SumWeights(b)
  {
    if b == [] {
      assert a + b == a;
    } else {
      var front, last := b[..|b| - 1], b[|b| - 1];
      SumWeightsConcat(a, front);
      assert (a + b)[..|a + b| - 1] == a + front;
    }
  }

  /** Each edge adds its weight. */
  lemma SumWeightsOfOne(e: CausalEdge)
    ensures SumWeights([e]) == e.weight && SumWeights([]) == 0.0
  {
    assert [e][..0] == [];
  }
}
