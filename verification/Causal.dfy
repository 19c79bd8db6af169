/** CausalRepository of vermyth/grimoire/repositories/causal.py: the edge table and
    the depth-bounded breadth-first traversal over it. */
module Causal {
  import opened Order
  import opened Reals

  datatype EdgeType = Causes | Inhibits | Enables | Requires

  datatype CausalEdge = CausalEdge(id: string, source: string, target: string, kind: EdgeType, weight: real)

  datatype Direction = Forward | Backward | Both

  datatype CausalQuery = CausalQuery(
    root: string, kinds: seq<EdgeType>, direction: Direction, maxDepth: nat, minWeight: real)

  datatype CausalSubgraph = Subgraph(nodes: seq<string>, edges: seq<CausalEdge>, narrative: real)

  const QUERY_LIMIT: nat := 1000

  ghost predicate DistinctEdges(rows: seq<CausalEdge>) {
    forall i, j :: 0 <= i < j < |rows| ==> rows[i].id != rows[j].id
  }

  predicate Touches(e: CausalEdge, node: string, minWeight: real) {
    e.weight >= minWeight && (e.source == node || e.target == node)
  }

  /** `WHERE weight >= ? AND (source = ? OR target = ?)`, in table order. */
  function Incident(rows: seq<CausalEdge>, node: string, minWeight: real): (r: seq<CausalEdge>)
    ensures forall e :: e in r <==> e in rows && Touches(e, node, minWeight)
  {
    if rows == [] then []
    else
      var last := rows[|rows| - 1];
      assert rows == rows[..|rows| - 1] + [last];
      Incident(rows[..|rows| - 1], node, minWeight) + if Touches(last, node, minWeight) then [last] else []
  }

  function Take(s: seq<CausalEdge>, n: nat): seq<CausalEdge> {
    if |s| <= n then s else s[..n]
  }

  /** The filters of the traversal: type, then direction. (An empty type list is no filter.) */
  predicate Admits(q: CausalQuery, node: string, e: CausalEdge) {
    && (q.kinds == [] || e.kind in q.kinds)
    && (q.direction == Forward ==> e.source == node)
    && (q.direction == Backward ==> e.target == node)
  }

  /** The edges the traversal follows from `node`: those among the first 1000 rows the
      query returns that pass the filters. */
  predicate Follows(rows: seq<CausalEdge>, q: CausalQuery, node: string, e: CausalEdge) {
    e in Take(Incident(rows, node, q.minWeight), QUERY_LIMIT) && Admits(q, node, e)
  }

  predicate Ends(e: CausalEdge, v: string) {
    v == e.source || v == e.target
  }

  /** One step of the traversal. */
  predicate Steps(rows: seq<CausalEdge>, q: CausalQuery, u: string, v: string) {
    exists e <- rows :: Follows(rows, q, u, e) && Ends(e, v)
  }

  /** A walk that starts at the root. */
  ghost predicate IsWalk(rows: seq<CausalEdge>, q: CausalQuery, p: seq<string>) {
    |p| > 0 && p[0] == q.root && forall i :: 0 <= i < |p| - 1 ==> Steps(rows, q, p[i], p[i + 1])
  }

  /** `v` ends a walk of at most `k` steps. */
  ghost predicate Within(rows: seq<CausalEdge>, q: CausalQuery, k: int, v: string) {
    exists p :: IsWalk(rows, q, p) && |p| <= k + 1 && p[|p| - 1] == v
  }

  lemma RootWithin(rows: seq<CausalEdge>, q: CausalQuery, k: nat)
    ensures Within(rows, q, k, q.root)
  {
    assert IsWalk(rows, q, [q.root]);
  }

  lemma WithinStep(rows: seq<CausalEdge>, q: CausalQuery, k: nat, u: string, v: string)
    requires Within(rows, q, k, u) && Steps(rows, q, u, v)
    ensures Within(rows, q, k + 1, v)
  {
    var p :| IsWalk(rows, q, p) && |p| <= k + 1 && p[|p| - 1] == u;
    var r := p + [v];
    forall i | 0 <= i < |r| - 1 ensures Steps(rows, q, r[i], r[i + 1]) {
      if i < |p| - 1 {
        assert Steps(rows, q, p[i], p[i + 1]);
      }
    }
    assert IsWalk(rows, q, r);
  }

  lemma WithinMonotone(rows: seq<CausalEdge>, q: CausalQuery, j: int, k: int, v: string)
    requires Within(rows, q, j, v) && j <= k
    ensures Within(rows, q, k, v)
  {
    var p :| IsWalk(rows, q, p) && |p| <= j + 1 && p[|p| - 1] == v;
    assert |p| <= k + 1;
  }

  // ---- The traversal ----

  type Depths = map<string, nat>

  ghost predicate ReachedBy(depth: Depths, v: string, d: nat) {
    v in depth && depth[v] <= d
  }

  /** All edges followed from `u` are collected and their ends visited at most one deeper. */
  ghost predicate Expanded(rows: seq<CausalEdge>, q: CausalQuery, depth: Depths, edges: seq<CausalEdge>, u: string) {
    && u in depth
    && forall e {:trigger Follows(rows, q, u, e)} :: Follows(rows, q, u, e) ==>
         e in edges && ReachedBy(depth, e.source, depth[u] + 1) && ReachedBy(depth, e.target, depth[u] + 1)
  }

  ghost predicate Waiting(frontier: seq<(string, nat)>, v: string) {
    exists i :: 0 <= i < |frontier| && frontier[i].0 == v
  }

  /** A visited node is waiting, or at the depth bound, or expanded. */
  ghost predicate Settled(rows: seq<CausalEdge>, q: CausalQuery, depth: Depths, frontier: seq<(string, nat)>,
                          edges: seq<CausalEdge>, v: string) {
    v in depth && (Waiting(frontier, v) || depth[v] >= q.maxDepth || Expanded(rows, q, depth, edges, v))
  }

  /** A visited node's depth is the length of some walk to it, within the bound. */
  ghost predicate Sound(rows: seq<CausalEdge>, q: CausalQuery, depth: Depths, v: string) {
    v in depth && depth[v] <= q.maxDepth && Within(rows, q, depth[v], v)
  }

  /** A collected edge is followed from a visited node above the bound. */
  ghost predicate Collected(rows: seq<CausalEdge>, q: CausalQuery, depth: Depths, e: CausalEdge) {
    exists u :: u in depth && depth[u] < q.maxDepth && Follows(rows, q, u, e)
  }

  /** The queue holds visited nodes in order of depth, spanning at most two levels. */
  ghost predicate Queue(depth: Depths, frontier: seq<(string, nat)>) {
    && (forall i :: 0 <= i < |frontier| ==> frontier[i].0 in depth && depth[frontier[i].0] == frontier[i].1)
    && (forall i, j :: 0 <= i < j < |frontier| ==> frontier[i].1 <= frontier[j].1 <= frontier[i].1 + 1)
  }

  ghost predicate Bounded(depth: Depths, d: nat) {
    forall v :: v in depth ==> depth[v] <= d
  }

  ghost predicate Searching(rows: seq<CausalEdge>, q: CausalQuery, depth: Depths, frontier: seq<(string, nat)>,
                            edges: seq<CausalEdge>) {
    && q.root in depth && depth[q.root] == 0
    && Queue(depth, frontier)
    && (frontier != [] ==> Bounded(depth, frontier[0].1 + 1))
    && (forall v {:trigger Sound(rows, q, depth, v)} :: v in depth ==> Sound(rows, q, depth, v))
    && (forall v {:trigger Settled(rows, q, depth, frontier, edges, v)} ::
          v in depth ==> Settled(rows, q, depth, frontier, edges, v))
    && (forall e {:trigger Collected(rows, q, depth, e)} :: e in edges ==> Collected(rows, q, depth, e))
  }

  /** `depth'` adds nodes at depth `d` to `depth`, and `added` lists them. */
  ghost predicate Grows(depth: Depths, depth': Depths, added: seq<(string, nat)>, d: nat) {
    && (forall v :: v in depth ==> v in depth' && depth'[v] == depth[v])
    && (forall v :: v in depth' && v !in depth ==> depth'[v] == d && Waiting(added, v))
    && (forall i :: 0 <= i < |added| ==> added[i].0 in depth' && added[i].0 !in depth && added[i].1 == d)
  }

  /** Where new nodes come from: an end of a followed edge. */
  ghost predicate NewByStep(rows: seq<CausalEdge>, q: CausalQuery, u: string, depth: Depths, depth': Depths) {
    forall v :: v in depth' && v !in depth ==> Steps(rows, q, u, v)
  }

  lemma GrowsByOne(depth: Depths, depth': Depths, added: seq<(string, nat)>, d: nat, v: string)
    requires Grows(depth, depth', added, d) && v !in depth'
    ensures Grows(depth, depth'[v := d], added + [(v, d)], d)
  {
    var more := added + [(v, d)];
    assert more[|added|] == (v, d);
    forall w | Waiting(added, w) ensures Waiting(more, w) {
      var i :| 0 <= i < |added| && added[i].0 == w;
      assert more[i].0 == w;
    }
  }

  /** Marks one end of a followed edge as visited and queues it, unless it was seen. */
  method See(ghost rows: seq<CausalEdge>, ghost q: CausalQuery, ghost u: string, ghost depth: Depths, v: string, d: nat,
             visited0: set<string>, added0: seq<(string, nat)>, ghost depth0: Depths)
    returns (visited: set<string>, added: seq<(string, nat)>, ghost depth': Depths)
    requires depth0.Keys == visited0 && Grows(depth, depth0, added0, d) && Bounded(depth0, d)
    requires NewByStep(rows, q, u, depth, depth0) && Steps(rows, q, u, v)
    ensures depth'.Keys == visited && Grows(depth, depth', added, d) && Bounded(depth', d)
    ensures NewByStep(rows, q, u, depth, depth')
    ensures ReachedBy(depth', v, d) && forall w :: ReachedBy(depth0, w, d) ==> ReachedBy(depth', w, d)
  {
    visited, added, depth' := visited0, added0, depth0;
    if v !in visited {
      GrowsByOne(depth, depth', added, d, v);
      visited, added := visited + {v}, added + [(v, d)];
      depth' := depth'[v := d];
    }
  }

  /** Follows one edge of `u`: collects it and sees both its ends. */
  method Follow(ghost rows: seq<CausalEdge>, ghost q: CausalQuery, ghost u: string, ghost depth: Depths,
                edge: CausalEdge, d: nat, visited: set<string>, edges: seq<CausalEdge>,
                added: seq<(string, nat)>, ghost depth0: Depths)
    returns (visited': set<string>, edges': seq<CausalEdge>, added': seq<(string, nat)>, ghost depth': Depths)
    requires depth0.Keys == visited && Grows(depth, depth0, added, d) && Bounded(depth0, d)
    requires NewByStep(rows, q, u, depth, depth0) && Follows(rows, q, u, edge)
    requires NoDup(edges)
    ensures depth'.Keys == visited' && Grows(depth, depth', added', d) && Bounded(depth', d)
    ensures NewByStep(rows, q, u, depth, depth')
    ensures EndsReached(depth', edge, d) && forall w :: ReachedBy(depth0, w, d) ==> ReachedBy(depth', w, d)
    ensures NoDup(edges') && forall e :: e in edges' <==> e in edges || e == edge
  {
    edges' := if edge in edges then edges else edges + [edge];
    EndsAreSteps(rows, q, u, edge);
    visited', added', depth' := See(rows, q, u, depth, edge.source, d, visited, added, depth0);
    visited', added', depth' := See(rows, q, u, depth, edge.target, d, visited', added', depth');
  }

  ghost predicate EndsReached(depth: Depths, e: CausalEdge, d: nat) {
    ReachedBy(depth, e.source, d) && ReachedBy(depth, e.target, d)
  }

  /** The edges of a list that the traversal admits at `u` are collected, and their ends reached. */
  ghost predicate Scanned(q: CausalQuery, u: string, depth: Depths, edges0: seq<CausalEdge>, edges: seq<CausalEdge>,
                          neighbours: seq<CausalEdge>, d: nat)
  {
    && (forall e :: e in edges <==> e in edges0 || (e in neighbours && Admits(q, u, e)))
    && (forall e :: e in neighbours && Admits(q, u, e) ==> EndsReached(depth, e, d))
  }

  lemma ScanOne(q: CausalQuery, u: string, depth: Depths, depth': Depths, edges0: seq<CausalEdge>,
                edges: seq<CausalEdge>, edges': seq<CausalEdge>, front: seq<CausalEdge>, edge: CausalEdge, d: nat)
    requires Scanned(q, u, depth, edges0, edges, front, d)
    requires forall w :: ReachedBy(depth, w, d) ==> ReachedBy(depth', w, d)
    requires Admits(q, u, edge) ==>
      EndsReached(depth', edge, d) && forall e :: e in edges' <==> e in edges || e == edge
    requires !Admits(q, u, edge) ==> edges' == edges
    ensures Scanned(q, u, depth', edges0, edges', front + [edge], d)
  {
    forall e ensures e in front + [edge] <==> e in front || e == edge {}
  }

  /** One edge of the inner loop: passed over unless the traversal admits it at `u`. */
  method ScanEdge(ghost rows: seq<CausalEdge>, q: CausalQuery, u: string, ghost depth: Depths, edge: CausalEdge,
                  ghost edges0: seq<CausalEdge>, ghost front: seq<CausalEdge>, d: nat, visited: set<string>,
                  edges: seq<CausalEdge>, added: seq<(string, nat)>, ghost depth0: Depths)
    returns (visited': set<string>, edges': seq<CausalEdge>, added': seq<(string, nat)>, ghost depth': Depths)
    requires depth0.Keys == visited && Grows(depth, depth0, added, d) && Bounded(depth0, d)
    requires NewByStep(rows, q, u, depth, depth0) && NoDup(edges)
    requires Scanned(q, u, depth0, edges0, edges, front, d)
    requires Admits(q, u, edge) ==> Follows(rows, q, u, edge)
    ensures depth'.Keys == visited' && Grows(depth, depth', added', d) && Bounded(depth', d)
    ensures NewByStep(rows, q, u, depth, depth') && NoDup(edges')
    ensures Scanned(q, u, depth', edges0, edges', front + [edge], d)
  {
    visited', edges', added', depth' := visited, edges, added, depth0;
    if Admits(q, u, edge) {
      visited', edges', added', depth' := Follow(rows, q, u, depth, edge, d, visited, edges, added, depth0);
    }
    ScanOne(q, u, depth0, depth', edges0, edges, edges', front, edge, d);
  }

  lemma ScannedIsExpanded(rows: seq<CausalEdge>, q: CausalQuery, u: string, depth: Depths, edges0: seq<CausalEdge>,
                          edges: seq<CausalEdge>, d: nat)
    requires Scanned(q, u, depth, edges0, edges, Take(Incident(rows, u, q.minWeight), QUERY_LIMIT), d + 1)
    requires u in depth && depth[u] == d
    ensures Expanded(rows, q, depth, edges, u)
    ensures forall e :: e in edges <==> e in edges0 || Follows(rows, q, u, e)
  {
    forall e | Follows(rows, q, u, e) ensures EndsReached(depth, e, d + 1) {}
  }

  /** The inner loop: collects the admitted edges of `u` and queues their unseen ends. */
  method ScanNeighbours(ghost rows: seq<CausalEdge>, q: CausalQuery, u: string, d: nat, neighbours: seq<CausalEdge>,
                        visited: set<string>, edges: seq<CausalEdge>, ghost depth: Depths)
    returns (visited': set<string>, edges': seq<CausalEdge>, added: seq<(string, nat)>, ghost depth': Depths)
    requires neighbours == Take(Incident(rows, u, q.minWeight), QUERY_LIMIT)
    requires depth.Keys == visited && u in depth && depth[u] == d && Bounded(depth, d + 1)
    requires NoDup(edges)
    ensures depth'.Keys == visited' && Grows(depth, depth', added, d + 1)
    ensures NewByStep(rows, q, u, depth, depth')
    ensures Expanded(rows, q, depth', edges', u)
    ensures NoDup(edges') && (forall e :: e in edges' <==> e in edges || Follows(rows, q, u, e))
  {
    visited', edges', added, depth' := visited, edges, [], depth;
    for i := 0 to |neighbours|
      invariant depth'.Keys == visited' && Grows(depth, depth', added, d + 1) && Bounded(depth', d + 1)
      invariant NewByStep(rows, q, u, depth, depth')
      invariant NoDup(edges')
      invariant Scanned(q, u, depth', edges, edges', neighbours[..i], d + 1)
    {
      assert neighbours[..i + 1] == neighbours[..i] + [neighbours[i]];
      visited', edges', added, depth' := ScanEdge(rows, q, u, depth, neighbours[i], edges, neighbours[..i], d + 1,
                                                  visited', edges', added, depth');
    }
    assert neighbours[..|neighbours|] == neighbours;
    ScannedIsExpanded(rows, q, u, depth', edges, edges', d);
  }

  lemma EndsAreSteps(rows: seq<CausalEdge>, q: CausalQuery, u: string, e: CausalEdge)
    requires Follows(rows, q, u, e)
    ensures Steps(rows, q, u, e.source) && Steps(rows, q, u, e.target)
  {
    FollowedIsRow(rows, q, u, e);
    assert Ends(e, e.source) && Ends(e, e.target);
  }

  lemma StillSettled(rows: seq<CausalEdge>, q: CausalQuery, depth: Depths, depth': Depths, head: (string, nat),
                     rest: seq<(string, nat)>, added: seq<(string, nat)>,
                     edges: seq<CausalEdge>, edges': seq<CausalEdge>, d: nat, v: string)
    requires Settled(rows, q, depth, [head] + rest, edges, v) && Grows(depth, depth', added, d)
    requires forall e :: e in edges ==> e in edges'
    requires v != head.0
    ensures Settled(rows, q, depth', rest + added, edges', v)
  {
    if Waiting([head] + rest, v) {
      var i :| 0 <= i < |[head] + rest| && ([head] + rest)[i].0 == v;
      assert (rest + added)[i - 1].0 == v;
    }
  }

  lemma NewlySettled(rows: seq<CausalEdge>, q: CausalQuery, depth: Depths, depth': Depths,
                     rest: seq<(string, nat)>, added: seq<(string, nat)>, edges': seq<CausalEdge>, d: nat, v: string)
    requires Grows(depth, depth', added, d) && v in depth' && v !in depth
    ensures Settled(rows, q, depth', rest + added, edges', v)
  {
    var i :| 0 <= i < |added| && added[i].0 == v;
    assert (rest + added)[|rest| + i].0 == v;
  }

  lemma QueueAdvances(depth: Depths, depth': Depths, frontier: seq<(string, nat)>, added: seq<(string, nat)>)
    requires frontier != [] && Queue(depth, frontier) && Bounded(depth, frontier[0].1 + 1)
    requires Grows(depth, depth', added, frontier[0].1 + 1)
    ensures Queue(depth', frontier[1..] + added)
    ensures frontier[1..] + added != [] ==> Bounded(depth', (frontier[1..] + added)[0].1 + 1)
  {
  }

  lemma StillSound(rows: seq<CausalEdge>, q: CausalQuery, depth: Depths, depth': Depths, added: seq<(string, nat)>,
                   u: string, v: string)
    requires u in depth && depth[u] < q.maxDepth && Sound(rows, q, depth, u)
    requires Grows(depth, depth', added, depth[u] + 1) && NewByStep(rows, q, u, depth, depth')
    requires v in depth' && (v in depth ==> Sound(rows, q, depth, v))
    ensures Sound(rows, q, depth', v)
  {
    if v !in depth {
      WithinStep(rows, q, depth[u], u, v);
    }
  }

  /** Taking the head of the queue at the depth bound. */
  lemma SkipHead(rows: seq<CausalEdge>, q: CausalQuery, depth: Depths, frontier: seq<(string, nat)>,
                 edges: seq<CausalEdge>)
    requires Searching(rows, q, depth, frontier, edges) && frontier != [] && frontier[0].1 >= q.maxDepth
    ensures Searching(rows, q, depth, frontier[1..], edges)
  {
    QueueAdvances(depth, depth, frontier, []);
    assert frontier[1..] + [] == frontier[1..] && [frontier[0]] + frontier[1..] == frontier;
    forall v | v in depth ensures Settled(rows, q, depth, frontier[1..], edges, v) {
      assert Settled(rows, q, depth, frontier, edges, v);
      if v != frontier[0].0 {
        StillSettled(rows, q, depth, depth, frontier[0], frontier[1..], [], edges, edges, 0, v);
      }
    }
  }

  /** Expanding the head of the queue. */
  lemma ExpandHead(rows: seq<CausalEdge>, q: CausalQuery, depth: Depths, depth': Depths, frontier: seq<(string, nat)>,
                   added: seq<(string, nat)>, edges: seq<CausalEdge>, edges': seq<CausalEdge>)
    requires Searching(rows, q, depth, frontier, edges) && frontier != [] && frontier[0].1 < q.maxDepth
    requires Grows(depth, depth', added, frontier[0].1 + 1) && NewByStep(rows, q, frontier[0].0, depth, depth')
    requires Expanded(rows, q, depth', edges', frontier[0].0)
    requires forall e :: e in edges' <==> e in edges || Follows(rows, q, frontier[0].0, e)
    ensures Searching(rows, q, depth', frontier[1..] + added, edges')
  {
    var u, rest := frontier[0].0, frontier[1..] + added;
    QueueAdvances(depth, depth', frontier, added);
    assert Sound(rows, q, depth, u);
    forall v | v in depth' ensures Sound(rows, q, depth', v) && Settled(rows, q, depth', rest, edges', v) {
      assert v in depth ==> Sound(rows, q, depth, v) && Settled(rows, q, depth, frontier, edges, v);
      StillSound(rows, q, depth, depth', added, u, v);
      ExpandHeadAt(rows, q, depth, depth', frontier, added, edges, edges', v);
    }
    forall e | e in edges' ensures Collected(rows, q, depth', e) {
      assert e in edges ==> Collected(rows, q, depth, e);
    }
  }

  lemma ExpandHeadAt(rows: seq<CausalEdge>, q: CausalQuery, depth: Depths, depth': Depths, frontier: seq<(string, nat)>,
                     added: seq<(string, nat)>, edges: seq<CausalEdge>, edges': seq<CausalEdge>, v: string)
    requires frontier != [] && Grows(depth, depth', added, frontier[0].1 + 1)
    requires Expanded(rows, q, depth', edges', frontier[0].0) && forall e :: e in edges ==> e in edges'
    requires v in depth' && (v in depth ==> Settled(rows, q, depth, frontier, edges, v))
    ensures Settled(rows, q, depth', frontier[1..] + added, edges', v)
  {
    assert [frontier[0]] + frontier[1..] == frontier;
    if v !in depth {
      NewlySettled(rows, q, depth, depth', frontier[1..], added, edges', frontier[0].1 + 1, v);
    } else if v != frontier[0].0 {
      StillSettled(rows, q, depth, depth', frontier[0], frontier[1..], added, edges, edges', frontier[0].1 + 1, v);
    }
  }

  /** When the queue is empty, every walk within the bound has been followed. */
  lemma {:induction false} WalksVisited(rows: seq<CausalEdge>, q: CausalQuery, depth: Depths, edges: seq<CausalEdge>,
                                        p: seq<string>)
    requires Searching(rows, q, depth, [], edges) && IsWalk(rows, q, p) && |p| <= q.maxDepth + 1
    ensures ReachedBy(depth, p[|p| - 1], |p| - 1)
  {
    if |p| > 1 {
      var front := p[..|p| - 1];
      var u, v := front[|front| - 1], p[|p| - 1];
      assert IsWalk(rows, q, front) by {
        forall i | 0 <= i < |front| - 1 ensures Steps(rows, q, front[i], front[i + 1]) {
          assert Steps(rows, q, p[i], p[i + 1]);
        }
      }
      WalksVisited(rows, q, depth, edges, front);
      assert Steps(rows, q, p[|p| - 2], p[|p| - 1]);
      var e :| e in rows && Follows(rows, q, u, e) && Ends(e, v);
      assert Settled(rows, q, depth, [], edges, u);
      assert !Waiting([], u);
    }
  }

  lemma FollowedIsRow(rows: seq<CausalEdge>, q: CausalQuery, u: string, e: CausalEdge)
    requires Follows(rows, q, u, e)
    ensures e in rows && Touches(e, u, q.minWeight)
  {
    assert e in Incident(rows, u, q.minWeight);
  }

  /** When the queue is empty, the search has found exactly what is within the bound. */
  lemma SearchIsExact(rows: seq<CausalEdge>, q: CausalQuery, depth: Depths, edges: seq<CausalEdge>)
    requires Searching(rows, q, depth, [], edges)
    ensures forall v :: v in depth <==> Within(rows, q, q.maxDepth, v)
    ensures forall e :: e in edges <==> exists u :: Within(rows, q, q.maxDepth - 1, u) && Follows(rows, q, u, e)
  {
    forall v ensures v in depth <==> Within(rows, q, q.maxDepth, v) {
      if v in depth {
        assert Sound(rows, q, depth, v);
        WithinMonotone(rows, q, depth[v], q.maxDepth, v);
      }
      if Within(rows, q, q.maxDepth, v) {
        var p :| IsWalk(rows, q, p) && |p| <= q.maxDepth + 1 && p[|p| - 1] == v;
        WalksVisited(rows, q, depth, edges, p);
      }
    }
    forall e ensures e in edges <==> exists u :: Within(rows, q, q.maxDepth - 1, u) && Follows(rows, q, u, e) {
      if e in edges {
        assert Collected(rows, q, depth, e);
        var u :| u in depth && depth[u] < q.maxDepth && Follows(rows, q, u, e);
        assert Sound(rows, q, depth, u);
        WithinMonotone(rows, q, depth[u], q.maxDepth - 1, u);
      }
      if u :| Within(rows, q, q.maxDepth - 1, u) && Follows(rows, q, u, e) {
        var p :| IsWalk(rows, q, p) && |p| <= q.maxDepth && p[|p| - 1] == u;
        WalksVisited(rows, q, depth, edges, p);
        assert Settled(rows, q, depth, [], edges, u);
        assert !Waiting([], u);
      }
    }
  }

  // ---- The result ----

  function SumWeights(edges: seq<CausalEdge>): real {
    if edges == [] then 0.0 else SumWeights(edges[..|edges| - 1]) + edges[|edges| - 1].weight
  }

  ghost predicate UnitWeights(edges: seq<CausalEdge>) {
    forall e :: e in edges ==> 0.0 <= e.weight <= 1.0
  }

  lemma {:induction false} SumWeightsBounds(edges: seq<CausalEdge>)
    requires UnitWeights(edges)
    ensures 0.0 <= SumWeights(edges) <= |edges| as real
  {
    if edges != [] {
      assert edges[|edges| - 1] in edges;
      forall e | e in edges[..|edges| - 1] ensures e in edges {}
      SumWeightsBounds(edges[..|edges| - 1]);
    }
  }

  /** narrative_coherence: the mean edge weight, 0 without edges; its clamp never fires. */
  method Narrative(edges: seq<CausalEdge>) returns (r: real)
    requires UnitWeights(edges)
    ensures 0.0 <= r <= 1.0
    ensures edges == [] ==> r == 0.0
    ensures edges != [] ==> r == SumWeights(edges) / |edges| as real
  {
    var narrative := 0.0;
    if edges != [] {
      var sum := 0.0;
      for i := 0 to |edges|
        invariant sum == SumWeights(edges[..i])
      {
        assert edges[..i + 1][..i] == edges[..i];
        sum := sum + edges[i].weight;
      }
      assert edges[..|edges|] == edges;
      SumWeightsBounds(edges);
      MeanInUnit(sum, |edges| as real);
      narrative := sum / |edges| as real;
    }
    return if narrative < 0.0 then 0.0 else if narrative > 1.0 then 1.0 else narrative;
  }

  ghost function AllNodes(rows: seq<CausalEdge>, root: string): set<string> {
    {root} + (set e | e in rows :: e.source) + (set e | e in rows :: e.target)
  }

  class CausalRepository {
    /** The edge table in the order the queries return it, newest first. */
    var rows: seq<CausalEdge>

    ghost predicate Valid()
      reads this
    {
      DistinctEdges(rows) && UnitWeights(rows)
    }

    /** query_causal_edges without a type filter, as the traversal calls it. */
    method QueryCausalEdges(node: string, minWeight: real, limit: nat) returns (r: seq<CausalEdge>)
      ensures r == Take(Incident(rows, node, minWeight), limit)
    {
      r := [];
      for i := 0 to |rows|
        invariant r == Incident(rows[..i], node, minWeight)
      {
        assert rows[..i + 1][..i] == rows[..i];
        if Touches(rows[i], node, minWeight) {
          r := r + [rows[i]];
        }
      }
      assert rows[..|rows|] == rows;
      if |r| > limit {
        r := r[..limit];
      }
    }

    /** One round of the outer loop above the depth bound: expands the head of the queue. */
    method ExpandNode(q: CausalQuery, frontier: seq<(string, nat)>, visited: set<string>, edges: seq<CausalEdge>,
                      ghost depth: Depths)
      returns (frontier': seq<(string, nat)>, visited': set<string>, edges': seq<CausalEdge>, ghost depth': Depths)
      requires Searching(rows, q, depth, frontier, edges) && frontier != [] && frontier[0].1 < q.maxDepth
      requires depth.Keys == visited && visited <= AllNodes(rows, q.root)
      requires NoDup(edges) && forall e :: e in edges ==> e in rows
      ensures Searching(rows, q, depth', frontier', edges')
      ensures depth'.Keys == visited' && visited' <= AllNodes(rows, q.root)
      ensures NoDup(edges') && forall e :: e in edges' ==> e in rows
      ensures |AllNodes(rows, q.root) - visited'| < |AllNodes(rows, q.root) - visited|
        || (visited' == visited && |frontier'| < |frontier|)
    {
      var (node, d) := frontier[0];
      var neighbours := QueryCausalEdges(node, q.minWeight, QUERY_LIMIT);
      var added;
      visited', edges', added, depth' := ScanNeighbours(rows, q, node, d, neighbours, visited, edges, depth);
      ExpandHead(rows, q, depth, depth', frontier, added, edges, edges');
      NewNodesAreKnown(rows, q, node, depth, depth', added, d + 1);
      forall e | e in edges' ensures e in rows {
        if e !in edges { FollowedIsRow(rows, q, node, e); }
      }
      frontier' := frontier[1..] + added;
    }

    /** Exactly the nodes within `maxDepth` steps of the root and exactly the edges followed
        from nodes above the bound; terminates on every table, cyclic ones included. */
    method CausalSubgraph(q: CausalQuery) returns (r: CausalSubgraph)
      requires Valid()
      ensures Sorted(r.nodes) && NoDup(r.nodes) && DistinctEdges(r.edges)
      ensures forall v :: v in r.nodes <==> Within(rows, q, q.maxDepth, v)
      ensures forall e :: e in r.edges <==> exists u :: Within(rows, q, q.maxDepth - 1, u) && Follows(rows, q, u, e)
      ensures 0.0 <= r.narrative <= 1.0
      ensures r.narrative == if r.edges == [] then 0.0 else SumWeights(r.edges) / |r.edges| as real
    {
      var visited, edges := {q.root}, [];
      var frontier: seq<(string, nat)> := [(q.root, 0)];
      ghost var depth: Depths := map[q.root := 0];
      StartSearch(rows, q);
      while frontier != []
        invariant Searching(rows, q, depth, frontier, edges)
        invariant depth.Keys == visited && visited <= AllNodes(rows, q.root)
        invariant NoDup(edges) && forall e :: e in edges ==> e in rows
        decreases |AllNodes(rows, q.root) - visited|, |frontier|
      {
        if frontier[0].1 >= q.maxDepth {
          SkipHead(rows, q, depth, frontier, edges);
          frontier := frontier[1..];
          continue;
        }
        frontier, visited, edges, depth := ExpandNode(q, frontier, visited, edges, depth);
      }
      SearchIsExact(rows, q, depth, edges);
      RowsAreDistinct(rows, edges);
      var nodes := SortedList(visited);
      var narrative := Narrative(edges);
      r := Subgraph(nodes, edges, narrative);
    }
  }

  /** Collecting an edge once is collecting its id once. */
  lemma RowsAreDistinct(rows: seq<CausalEdge>, edges: seq<CausalEdge>)
    requires DistinctEdges(rows) && NoDup(edges) && forall e :: e in edges ==> e in rows
    ensures DistinctEdges(edges)
  {
    forall i, j | 0 <= i < j < |edges| ensures edges[i].id != edges[j].id {
      assert edges[i] in edges && edges[j] in edges;
    }
  }

  lemma StartSearch(rows: seq<CausalEdge>, q: CausalQuery)
    ensures Searching(rows, q, map[q.root := 0], [(q.root, 0)], [])
  {
    var frontier: seq<(string, nat)> := [(q.root, 0)];
    assert frontier[0].0 == q.root;
    RootWithin(rows, q, 0);
  }

  /** The nodes a step adds are ends of stored edges. */
  lemma NewNodesAreStored(rows: seq<CausalEdge>, q: CausalQuery, u: string, depth: Depths, depth': Depths)
    requires NewByStep(rows, q, u, depth, depth') && depth.Keys <= AllNodes(rows, q.root)
    ensures depth'.Keys <= AllNodes(rows, q.root)
  {
    forall v | v in depth' ensures v in AllNodes(rows, q.root) {
      if v !in depth {
        var e :| e in rows && Follows(rows, q, u, e) && Ends(e, v);
      }
    }
  }

  /** Visiting a new node leaves fewer unvisited. */
  lemma FewerUnseen(universe: set<string>, seen: set<string>, seen': set<string>, v: string)
    requires seen <= seen' <= universe && v in seen' && v !in seen
    ensures |universe - seen'| < |universe - seen|
  {
    assert universe - seen' <= (universe - seen) - {v};
    SubsetSize(universe - seen', (universe - seen) - {v});
  }

  lemma NewNodesAreKnown(rows: seq<CausalEdge>, q: CausalQuery, u: string, depth: Depths, depth': Depths,
                         added: seq<(string, nat)>, d: nat)
    requires Grows(depth, depth', added, d) && NewByStep(rows, q, u, depth, depth')
    requires depth.Keys <= AllNodes(rows, q.root)
    ensures depth'.Keys <= AllNodes(rows, q.root)
    ensures added != [] ==> |AllNodes(rows, q.root) - depth'.Keys| < |AllNodes(rows, q.root) - depth.Keys|
    ensures added == [] ==> depth'.Keys == depth.Keys
  {
    NewNodesAreStored(rows, q, u, depth, depth');
    if added != [] {
      assert added[0].0 in depth' && added[0].0 !in depth;
      FewerUnseen(AllNodes(rows, q.root), depth.Keys, depth'.Keys, added[0].0);
    } else {
      forall v | v in depth' ensures v in depth {
        assert v !in depth ==> Waiting(added, v);
      }
    }
  }

  // ---- The query limit ----

  /** The edges the traversal should follow from `node`, were the query not limited. */
  predicate Admissible(rows: seq<CausalEdge>, q: CausalQuery, node: string, e: CausalEdge) {
    e in rows && Touches(e, node, q.minWeight) && Admits(q, node, e)
  }

  predicate AdmissibleStep(rows: seq<CausalEdge>, q: CausalQuery, u: string, v: string) {
    exists e <- rows :: Admissible(rows, q, u, e) && Ends(e, v)
  }

  ghost predicate IsAdmissibleWalk(rows: seq<CausalEdge>, q: CausalQuery, p: seq<string>) {
    |p| > 0 && p[0] == q.root && forall i :: 0 <= i < |p| - 1 ==> AdmissibleStep(rows, q, p[i], p[i + 1])
  }

  ghost predicate AdmissiblyWithin(rows: seq<CausalEdge>, q: CausalQuery, k: int, v: string) {
    exists p :: IsAdmissibleWalk(rows, q, p) && |p| <= k + 1 && p[|p| - 1] == v
  }

  /** The traversal follows every admissible edge of `u`. */
  ghost predicate ShowsAll(rows: seq<CausalEdge>, q: CausalQuery, u: string) {
    forall e :: Admissible(rows, q, u, e) ==> Follows(rows, q, u, e)
  }

  /** All rows of `u` beyond the query limit fail the filters. */
  ghost predicate CutIsInadmissible(rows: seq<CausalEdge>, q: CausalQuery, u: string) {
    var incident := Incident(rows, u, q.minWeight);
    forall i :: QUERY_LIMIT <= i < |incident| ==> !Admits(q, u, incident[i])
  }

  ghost predicate AllShown(rows: seq<CausalEdge>, q: CausalQuery) {
    forall u :: Within(rows, q, q.maxDepth - 1, u) ==> ShowsAll(rows, q, u)
  }

  lemma {:induction false} AdmissibleWalkIsWalk(rows: seq<CausalEdge>, q: CausalQuery, p: seq<string>)
    requires AllShown(rows, q) && IsAdmissibleWalk(rows, q, p) && |p| <= q.maxDepth + 1
    ensures IsWalk(rows, q, p)
  {
    if |p| > 1 {
      var front := p[..|p| - 1];
      var u, v := p[|p| - 2], p[|p| - 1];
      forall i | 0 <= i < |front| - 1 ensures AdmissibleStep(rows, q, front[i], front[i + 1]) {
        assert AdmissibleStep(rows, q, p[i], p[i + 1]);
      }
      AdmissibleWalkIsWalk(rows, q, front);
      assert Within(rows, q, q.maxDepth - 1, u);
      assert AdmissibleStep(rows, q, p[|p| - 2], p[|p| - 1]);
      var e :| e in rows && Admissible(rows, q, u, e) && Ends(e, v);
      assert ShowsAll(rows, q, u);
      forall i | 0 <= i < |p| - 1 ensures Steps(rows, q, p[i], p[i + 1]) {
        if i < |front| - 1 {
          assert Steps(rows, q, front[i], front[i + 1]);
        }
      }
    }
  }

  lemma StepIsAdmissible(rows: seq<CausalEdge>, q: CausalQuery, u: string, v: string)
    requires Steps(rows, q, u, v)
    ensures AdmissibleStep(rows, q, u, v)
  {
    var e :| e in rows && Follows(rows, q, u, e) && Ends(e, v);
    FollowedIsRow(rows, q, u, e);
    assert Admissible(rows, q, u, e);
  }

  lemma WithinIsAdmissible(rows: seq<CausalEdge>, q: CausalQuery, k: int, v: string)
    requires Within(rows, q, k, v)
    ensures AdmissiblyWithin(rows, q, k, v)
  {
    var p :| IsWalk(rows, q, p) && |p| <= k + 1 && p[|p| - 1] == v;
    forall i | 0 <= i < |p| - 1 ensures AdmissibleStep(rows, q, p[i], p[i + 1]) {
      assert Steps(rows, q, p[i], p[i + 1]);
      StepIsAdmissible(rows, q, p[i], p[i + 1]);
    }
    assert IsAdmissibleWalk(rows, q, p);
  }

  /** If the limit hides no admissible edge of a node above the bound, the walks the search
      follows are all admissible walks within the bound. */
  lemma LimitUnreached(rows: seq<CausalEdge>, q: CausalQuery, k: int, v: string)
    requires AllShown(rows, q) && k <= q.maxDepth
    ensures Within(rows, q, k, v) <==> AdmissiblyWithin(rows, q, k, v)
  {
    if Within(rows, q, k, v) {
      WithinIsAdmissible(rows, q, k, v);
    }
    if AdmissiblyWithin(rows, q, k, v) {
      var p :| IsAdmissibleWalk(rows, q, p) && |p| <= k + 1 && p[|p| - 1] == v;
      AdmissibleWalkIsWalk(rows, q, p);
    }
  }

  /** The bounded-distance subgraph over all admissible edges. */
  ghost predicate InFullSubgraph(rows: seq<CausalEdge>, q: CausalQuery, e: CausalEdge) {
    exists u :: AdmissiblyWithin(rows, q, q.maxDepth - 1, u) && Admissible(rows, q, u, e)
  }

  ghost predicate InSubgraph(rows: seq<CausalEdge>, q: CausalQuery, e: CausalEdge) {
    exists u :: Within(rows, q, q.maxDepth - 1, u) && Follows(rows, q, u, e)
  }

  /** The search finds no node and no edge outside the full subgraph. */
  lemma SearchIsSound(rows: seq<CausalEdge>, q: CausalQuery)
    ensures forall v :: Within(rows, q, q.maxDepth, v) ==> AdmissiblyWithin(rows, q, q.maxDepth, v)
    ensures forall e :: InSubgraph(rows, q, e) ==> InFullSubgraph(rows, q, e)
  {
    forall v | Within(rows, q, q.maxDepth, v) ensures AdmissiblyWithin(rows, q, q.maxDepth, v) {
      WithinIsAdmissible(rows, q, q.maxDepth, v);
    }
    forall e | InSubgraph(rows, q, e) ensures InFullSubgraph(rows, q, e) {
      var u :| Within(rows, q, q.maxDepth - 1, u) && Follows(rows, q, u, e);
      WithinIsAdmissible(rows, q, q.maxDepth - 1, u);
      FollowedIsRow(rows, q, u, e);
      assert Admissible(rows, q, u, e);
    }
  }

  /** The search finds the nodes and edges of the full subgraph. */
  ghost predicate FindsAll(rows: seq<CausalEdge>, q: CausalQuery) {
    && (forall v :: Within(rows, q, q.maxDepth, v) <==> AdmissiblyWithin(rows, q, q.maxDepth, v))
    && (forall e :: InSubgraph(rows, q, e) <==> InFullSubgraph(rows, q, e))
  }

  ghost predicate NoAdmissibleCut(rows: seq<CausalEdge>, q: CausalQuery) {
    forall u :: Within(rows, q, q.maxDepth - 1, u) ==> CutIsInadmissible(rows, q, u)
  }

  /** If, at every node the search expands, all rows the limit cuts off fail the filters, the
      search finds the full subgraph. */
  lemma SearchIsComplete(rows: seq<CausalEdge>, q: CausalQuery)
    requires DistinctEdges(rows) && NoAdmissibleCut(rows, q)
    ensures FindsAll(rows, q)
  {
    forall u | Within(rows, q, q.maxDepth - 1, u) ensures ShowsAll(rows, q, u) {
      LimitIsExact(rows, q, u);
    }
    SearchIsSound(rows, q);
    forall v ensures Within(rows, q, q.maxDepth, v) <==> AdmissiblyWithin(rows, q, q.maxDepth, v) {
      LimitUnreached(rows, q, q.maxDepth, v);
    }
    forall e | InFullSubgraph(rows, q, e) ensures InSubgraph(rows, q, e) {
      var u :| AdmissiblyWithin(rows, q, q.maxDepth - 1, u) && Admissible(rows, q, u, e);
      LimitUnreached(rows, q, q.maxDepth - 1, u);
      assert ShowsAll(rows, q, u);
    }
  }

  /** A search in one direction finds the full subgraph exactly then. (In both directions, an
      edge cut off at one end can still be followed from the other.) */
  lemma DirectedSearchIsExact(rows: seq<CausalEdge>, q: CausalQuery)
    requires DistinctEdges(rows) && q.direction != Both
    ensures FindsAll(rows, q) <==> NoAdmissibleCut(rows, q)
  {
    if NoAdmissibleCut(rows, q) {
      SearchIsComplete(rows, q);
    } else {
      var u :| Within(rows, q, q.maxDepth - 1, u) && !CutIsInadmissible(rows, q, u);
      LimitIsExact(rows, q, u);
      var e :| Admissible(rows, q, u, e) && !Follows(rows, q, u, e);
      WithinIsAdmissible(rows, q, q.maxDepth - 1, u);
      assert InFullSubgraph(rows, q, e);
      forall v ensures !Follows(rows, q, v, e) {
        assert Follows(rows, q, v, e) ==> v == u;
      }
      assert !InSubgraph(rows, q, e);
    }
  }

  lemma {:induction false} IncidentIsNoDup(rows: seq<CausalEdge>, node: string, minWeight: real)
    requires DistinctEdges(rows)
    ensures NoDup(Incident(rows, node, minWeight))
  {
    if rows != [] {
      var front, last := rows[..|rows| - 1], rows[|rows| - 1];
      IncidentIsNoDup(front, node, minWeight);
      assert last !in front;
    }
  }

  /** Every admissible edge of a node is followed exactly when all rows of the node beyond the
      first 1000 fail the filters: they are applied after the limit. */
  lemma LimitIsExact(rows: seq<CausalEdge>, q: CausalQuery, u: string)
    requires DistinctEdges(rows)
    ensures ShowsAll(rows, q, u) <==> CutIsInadmissible(rows, q, u)
  {
    var incident := Incident(rows, u, q.minWeight);
    IncidentIsNoDup(rows, u, q.minWeight);
    if CutIsInadmissible(rows, q, u) {
      forall e | Admissible(rows, q, u, e) ensures Follows(rows, q, u, e) {
        assert e in incident;
        var i :| 0 <= i < |incident| && incident[i] == e;
        assert i < QUERY_LIMIT;
        assert Take(incident, QUERY_LIMIT)[i] == e;
      }
    } else {
      var i :| QUERY_LIMIT <= i < |incident| && Admits(q, u, incident[i]);
      assert incident[i] in incident;
      assert incident[i] !in incident[..QUERY_LIMIT];
      assert Admissible(rows, q, u, incident[i]) && !Follows(rows, q, u, incident[i]);
    }
  }

  /** `n` edges of one type into `root`. */
  function Crowd(root: string, ids: nat -> string, n: nat): (r: seq<CausalEdge>)
    ensures |r| == n && forall i :: 0 <= i < n ==> r[i] == CausalEdge(ids(i), "other", root, Inhibits, 1.0)
  {
    if n == 0 then [] else Crowd(root, ids, n - 1) + [CausalEdge(ids(n - 1), "other", root, Inhibits, 1.0)]
  }

  /** The crowd, before one older edge of another type out of `root`. */
  function Crowded(root: string, ids: nat -> string, n: nat): seq<CausalEdge> {
    Crowd(root, ids, n) + [CausalEdge(ids(n), root, "lost", Causes, 1.0)]
  }

  lemma IncidentAppend(rows: seq<CausalEdge>, e: CausalEdge, node: string, minWeight: real)
    requires Touches(e, node, minWeight)
    ensures Incident(rows + [e], node, minWeight) == Incident(rows, node, minWeight) + [e]
  {
    assert (rows + [e])[..|rows|] == rows;
  }

  lemma {:induction false} CrowdIsIncident(root: string, ids: nat -> string, n: nat)
    ensures Incident(Crowd(root, ids, n), root, 0.0) == Crowd(root, ids, n)
  {
    if n > 0 {
      CrowdIsIncident(root, ids, n - 1);
      IncidentAppend(Crowd(root, ids, n - 1), CausalEdge(ids(n - 1), "other", root, Inhibits, 1.0), root, 0.0);
    }
  }

  lemma CrowdedIsTable(root: string, ids: nat -> string, n: nat)
    requires forall i, j :: 0 <= i < j <= n ==> ids(i) != ids(j)
    ensures DistinctEdges(Crowded(root, ids, n)) && UnitWeights(Crowded(root, ids, n))
  {
    var rows := Crowded(root, ids, n);
    forall i | 0 <= i < |rows| ensures rows[i].id == ids(i) && rows[i].weight == 1.0 {
      assert i < n ==> rows[i] == Crowd(root, ids, n)[i];
    }
  }

  lemma TakeDrops(s: seq<CausalEdge>, last: CausalEdge, n: nat)
    requires n <= |s|
    ensures Take(s + [last], n) == s[..n]
  {
  }

  lemma CrowdInhibits(root: string, ids: nat -> string, n: nat, e: CausalEdge)
    requires e in Crowd(root, ids, n)
    ensures e.kind == Inhibits
  {
    var i :| 0 <= i < n && Crowd(root, ids, n)[i] == e;
  }

  /** What a query for the root returns: the crowd only. */
  lemma CrowdIsShown(root: string, ids: nat -> string, n: nat, limit: nat)
    requires n >= limit
    ensures Take(Incident(Crowded(root, ids, n), root, 0.0), limit) == Crowd(root, ids, n)[..limit]
  {
    var crowd, last := Crowd(root, ids, n), CausalEdge(ids(n), root, "lost", Causes, 1.0);
    CrowdIsIncident(root, ids, n);
    IncidentAppend(crowd, last, root, 0.0);
    TakeDrops(crowd, last, limit);
  }

  /** None of it has the type asked for. */
  lemma CrowdHides(root: string, ids: nat -> string, n: nat, q: CausalQuery, e: CausalEdge)
    requires n >= QUERY_LIMIT && q.kinds == [Causes] && q.minWeight == 0.0
    ensures !Follows(Crowded(root, ids, n), q, root, e)
  {
    CrowdIsShown(root, ids, n, QUERY_LIMIT);
    if e in Crowd(root, ids, n) {
      CrowdInhibits(root, ids, n, e);
    }
  }

  /** An edge of the type asked for behind 1000 or more of another: a search restricted to its
      type and direction finds neither the edge nor the node it leads to. */
  lemma FilteredEdgeLost(root: string, ids: nat -> string, n: nat)
    requires n >= 1000 && root != "lost" && forall i, j :: 0 <= i < j <= n ==> ids(i) != ids(j)
    ensures var rows, q := Crowded(root, ids, n), CausalQuery(root, [Causes], Forward, 1, 0.0);
      var lost := CausalEdge(ids(n), root, "lost", Causes, 1.0);
      && DistinctEdges(rows) && UnitWeights(rows)
      && InFullSubgraph(rows, q, lost) && AdmissiblyWithin(rows, q, 1, "lost")
      && !InSubgraph(rows, q, lost) && !Within(rows, q, 1, "lost")
  {
    var rows, q := Crowded(root, ids, n), CausalQuery(root, [Causes], Forward, 1, 0.0);
    var lost := CausalEdge(ids(n), root, "lost", Causes, 1.0);
    CrowdedIsTable(root, ids, n);
    forall e ensures !Follows(rows, q, root, e) {
      CrowdHides(root, ids, n, q, e);
    }
    NothingFollowed(rows, q, root);
    OneStepAdmissible(rows, q, lost);
  }

  lemma OneStepAdmissible(rows: seq<CausalEdge>, q: CausalQuery, e: CausalEdge)
    requires q.maxDepth == 1 && Admissible(rows, q, q.root, e)
    ensures InFullSubgraph(rows, q, e) && AdmissiblyWithin(rows, q, 1, e.target)
  {
    assert IsAdmissibleWalk(rows, q, [q.root]) && [q.root][0] == q.root;
    assert AdmissiblyWithin(rows, q, 0, q.root);
    assert Ends(e, e.target) && AdmissibleStep(rows, q, q.root, e.target);
    var p := [q.root, e.target];
    assert IsAdmissibleWalk(rows, q, p) && p[|p| - 1] == e.target;
  }

  lemma NothingFollowed(rows: seq<CausalEdge>, q: CausalQuery, root: string)
    requires q.root == root && q.maxDepth == 1 && forall e :: !Follows(rows, q, root, e)
    ensures forall e :: !InSubgraph(rows, q, e)
    ensures forall v :: Within(rows, q, 1, v) ==> v == root
  {
    forall v | Within(rows, q, 1, v) ensures v == root {
      var p :| IsWalk(rows, q, p) && |p| <= 2 && p[|p| - 1] == v;
      assert !Steps(rows, q, root, v);
    }
  }
}
