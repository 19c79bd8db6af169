/** topological_order of vermyth/engine/operations/programs.py: Kahn's algorithm
    with a sorted ready list, and the predecessor table it is called with. */
module TopologicalOrder {
  import opened Wrappers
  import opened Order
  import opened Graph
  import opened Schema

  function Successors(nodes: map<string, Node>): Digraph {
    map id | id in nodes :: nodes[id].successors
  }

  function Copies(x: string, n: nat): (r: seq<string>)
    ensures |r| == n && forall y :: y in r ==> y == x
    ensures multiset(r)[x] == n
  {
    if n == 0 then [] else Copies(x, n - 1) + [x]
  }

  /** The predecessor list of `id`: one entry per listed successor, in node order. */
  function PredecessorList(nodes: seq<Node>, id: string): seq<string> {
    if nodes == [] then []
    else
      var last := nodes[|nodes| - 1];
      PredecessorList(nodes[..|nodes| - 1], id) + Copies(last.id, multiset(last.successors)[id])
  }

  /** `u` is listed as a predecessor of `v` as often as `v` is as its successor. */
  ghost predicate MirrorsAt(g: Digraph, predecessors: map<string, seq<string>>, u: string, v: string)
    requires predecessors.Keys == g.Keys && v in g
  {
    multiset(predecessors[v])[u] == if u in g then multiset(g[u])[v] else 0
  }

  /** The predecessor lists mirror the successor lists, repetitions included. */
  ghost predicate Mirrors(g: Digraph, predecessors: map<string, seq<string>>) {
    && predecessors.Keys == g.Keys
    && forall u, v {:trigger MirrorsAt(g, predecessors, u, v)} :: v in g ==> MirrorsAt(g, predecessors, u, v)
  }

  lemma {:induction false} PredecessorCount(nodes: seq<Node>, u: string, v: string)
    requires DistinctIds(nodes)
    ensures multiset(PredecessorList(nodes, v))[u]
         == if u in NodeTable(nodes) then multiset(NodeTable(nodes)[u].successors)[v] else 0
  {
    if nodes != [] {
      var front, last := nodes[..|nodes| - 1], nodes[|nodes| - 1];
      PredecessorCount(front, u, v);
      var copies := Copies(last.id, multiset(last.successors)[v]);
      assert multiset(PredecessorList(nodes, v)) == multiset(PredecessorList(front, v)) + multiset(copies);
      assert last.id !in NodeTable(front);
      if u != last.id {
        assert u !in copies;
      }
    }
  }

  lemma PredecessorListsMirror(nodes: seq<Node>, predecessors: map<string, seq<string>>)
    requires DistinctIds(nodes)
    requires predecessors.Keys == NodeTable(nodes).Keys
    requires forall id :: id in predecessors ==> predecessors[id] == PredecessorList(nodes, id)
    ensures Mirrors(Successors(NodeTable(nodes)), predecessors)
  {
    forall u, v | v in predecessors ensures MirrorsAt(Successors(NodeTable(nodes)), predecessors, u, v) {
      PredecessorCount(nodes, u, v);
    }
  }

  lemma MirrorsEdges(g: Digraph, predecessors: map<string, seq<string>>, u: string, v: string)
    requires Mirrors(g, predecessors) && v in g
    ensures u in predecessors[v] <==> Edge(g, u, v)
  {
    assert MirrorsAt(g, predecessors, u, v);
    assert u in predecessors[v] <==> multiset(predecessors[v])[u] > 0;
    if u in g {
      assert v in g[u] <==> multiset(g[u])[v] > 0;
    }
  }

  /** How many entries of `l` are not yet done. */
  function Remaining(l: seq<string>, done: set<string>): nat {
    if l == [] then 0
    else (if l[0] in done then 0 else 1) + Remaining(l[1..], done)
  }

  lemma {:induction false} RemainingOfNone(l: seq<string>)
    ensures Remaining(l, {}) == |l|
  {
    if l != [] { RemainingOfNone(l[1..]); }
  }

  lemma {:induction false} RemainingIsZero(l: seq<string>, done: set<string>)
    ensures Remaining(l, done) == 0 <==> forall u :: u in l ==> u in done
  {
    if l != [] {
      RemainingIsZero(l[1..], done);
      assert l == [l[0]] + l[1..];
    }
  }

  lemma {:induction false} RemainingAfter(l: seq<string>, done: set<string>, c: string)
    requires c !in done
    ensures Remaining(l, done) == Remaining(l, done + {c}) + multiset(l)[c]
  {
    if l != [] {
      RemainingAfter(l[1..], done, c);
      assert l == [l[0]] + l[1..];
      assert multiset(l) == multiset{l[0]} + multiset(l[1..]);
    }
  }

  /** The list of the keys whose counter is zero, in some dict order. */
  method KeysAtZero(indegree: map<string, int>) returns (ids: seq<string>)
    ensures NoDup(ids)
    ensures forall id :: id in ids <==> id in indegree && indegree[id] == 0
  {
    var rest := set id | id in indegree && indegree[id] == 0;
    ids := [];
    while rest != {}
      invariant NoDup(ids)
      invariant forall id :: id in indegree && indegree[id] == 0 <==> id in ids || id in rest
      invariant forall id :: id in ids ==> id !in rest
      decreases |rest|
    {
      var id :| id in rest;
      ids := ids + [id];
      rest := rest - {id};
    }
  }

  /** `v` is in the ready list exactly when it is unplaced with counter zero. */
  ghost predicate ReadyAt(indegree: map<string, int>, out: seq<string>, ready: seq<string>, v: string) {
    v in ready <==> v in indegree && v !in out && indegree[v] == 0
  }

  ghost predicate ReadyList(g: Digraph, indegree: map<string, int>, out: seq<string>, ready: seq<string>) {
    && indegree.Keys == g.Keys
    && Sorted(ready) && NoDup(ready)
    && forall v {:trigger ReadyAt(indegree, out, ready, v)} :: ReadyAt(indegree, out, ready, v)
  }

  /** The counter of `v`, after the first `i` entries of `succ` are decremented. */
  ghost predicate CountedAt(predecessors: map<string, seq<string>>, indegree: map<string, int>,
                            before: set<string>, succ: seq<string>, v: string)
    requires v in predecessors && v in indegree
  {
    indegree[v] == Remaining(predecessors[v], before) - multiset(succ)[v]
  }

  /** The counters count unplaced predecessors, less the decrements `succ` of this round. */
  ghost predicate Counted(g: Digraph, predecessors: map<string, seq<string>>, indegree: map<string, int>,
                          before: seq<string>, succ: seq<string>) {
    && indegree.Keys == g.Keys == predecessors.Keys
    && forall v {:trigger CountedAt(predecessors, indegree, Elems(before), succ, v)} ::
         v in g ==> CountedAt(predecessors, indegree, Elems(before), succ, v)
  }

  /** `v` was placed only after all its predecessors. */
  ghost predicate DoneAt(g: Digraph, predecessors: map<string, seq<string>>, before: seq<string>, v: string) {
    v in g && v in predecessors && Remaining(predecessors[v], Elems(before)) == 0
  }

  ghost predicate AllDone(g: Digraph, predecessors: map<string, seq<string>>, before: seq<string>,
                          placed: seq<string>)
  {
    forall v {:trigger DoneAt(g, predecessors, before, v)} :: v in placed ==> DoneAt(g, predecessors, before, v)
  }

  lemma RoundEnds(g: Digraph, predecessors: map<string, seq<string>>, indegree: map<string, int>,
                  before: seq<string>, cur: string)
    requires Mirrors(g, predecessors) && cur in g && cur !in before
    requires Counted(g, predecessors, indegree, before, g[cur])
    ensures Counted(g, predecessors, indegree, before + [cur], [])
  {
    assert Elems(before + [cur]) == Elems(before) + {cur};
    forall v | v in g ensures CountedAt(predecessors, indegree, Elems(before + [cur]), [], v) {
      RemainingAfter(predecessors[v], Elems(before), cur);
      assert MirrorsAt(g, predecessors, cur, v);
      assert CountedAt(predecessors, indegree, Elems(before), g[cur], v);
    }
  }

  /** The counter about to be decremented is positive, and its node is unplaced. */
  lemma SuccessorUnplaced(g: Digraph, predecessors: map<string, seq<string>>, indegree: map<string, int>,
                          before: seq<string>, cur: string, i: nat)
    requires Mirrors(g, predecessors) && Closed(g) && cur in g && cur !in before
    requires i < |g[cur]|
    requires Counted(g, predecessors, indegree, before, g[cur][..i])
    requires AllDone(g, predecessors, before, before + [cur])
    ensures g[cur][i] in g && g[cur][i] !in before + [cur]
    ensures indegree[g[cur][i]] > 0
  {
    var nxt := g[cur][i];
    assert Edge(g, cur, nxt);
    assert MirrorsAt(g, predecessors, cur, nxt);
    assert CountedAt(predecessors, indegree, Elems(before), g[cur][..i], nxt);
    RemainingAfter(predecessors[nxt], Elems(before), cur);
    assert g[cur] == g[cur][..i] + [nxt] + g[cur][i + 1..];
    assert multiset(g[cur])[nxt] >= multiset(g[cur][..i])[nxt] + 1;
    assert nxt in before + [cur] ==> DoneAt(g, predecessors, before, nxt);
  }

  /** The head of the ready list is the least node that may come next. */
  lemma HeadIsGreedy(g: Digraph, predecessors: map<string, seq<string>>, indegree: map<string, int>,
                     out: seq<string>, ready: seq<string>)
    requires Mirrors(g, predecessors) && Greedy(g, out) && ready != []
    requires Counted(g, predecessors, indegree, out, []) && ReadyList(g, indegree, out, ready)
    ensures Greedy(g, out + [ready[0]])
  {
    var next := out + [ready[0]];
    forall v ensures v in ready <==> Available(g, Elems(out), v) {
      assert ReadyAt(indegree, out, ready, v);
      if v in g {
        assert CountedAt(predecessors, indegree, Elems(out), [], v);
        RemainingIsZero(predecessors[v], Elems(out));
        forall u ensures u in predecessors[v] <==> Edge(g, u, v) {
          MirrorsEdges(g, predecessors, u, v);
        }
      }
    }
    forall k | 0 <= k < |next| ensures GreedyAt(g, next, k) {
      if k < |out| {
        assert GreedyAt(g, out, k);
        assert next[..k] == out[..k];
      } else {
        assert next[..k] == out;
        assert ready[0] in ready;
      }
    }
  }

  lemma PlacedIsDone(g: Digraph, predecessors: map<string, seq<string>>, out: seq<string>)
    requires Mirrors(g, predecessors) && Greedy(g, out)
    ensures AllDone(g, predecessors, out, out)
  {
    forall v | v in out ensures DoneAt(g, predecessors, out, v) {
      var k :| 0 <= k < |out| && out[k] == v;
      assert GreedyAt(g, out, k);
      forall u | u in predecessors[v] ensures u in Elems(out) {
        MirrorsEdges(g, predecessors, u, v);
        assert u in Elems(out[..k]);
      }
      RemainingIsZero(predecessors[v], Elems(out));
    }
  }

  lemma GreedyIsTopological(g: Digraph, out: seq<string>)
    requires Closed(g) && Greedy(g, out) && NoDup(out) && Elems(out) == g.Keys
    ensures IsTopological(g, out)
  {
    forall i, j | 0 <= i < |out| && 0 <= j < |out| && Edge(g, out[i], out[j]) ensures i < j {
      assert GreedyAt(g, out, j);
      assert out[i] in Elems(out[..j]);
    }
  }

  /** When nothing is ready, the unplaced nodes hold a cycle. */
  lemma StuckIsCyclic(g: Digraph, predecessors: map<string, seq<string>>, indegree: map<string, int>, out: seq<string>)
    requires Mirrors(g, predecessors) && Counted(g, predecessors, indegree, out, [])
    requires ReadyList(g, indegree, out, [])
    requires Elems(out) < g.Keys
    ensures Cyclic(g)
  {
    var stuck := g.Keys - Elems(out);
    forall v | v in stuck ensures HasPredecessorIn(g, stuck, v) {
      assert ReadyAt(indegree, out, [], v);
      assert CountedAt(predecessors, indegree, Elems(out), [], v);
      RemainingIsZero(predecessors[v], Elems(out));
      var u :| u in predecessors[v] && u !in Elems(out);
      MirrorsEdges(g, predecessors, u, v);
    }
    assert g.Keys == Elems(out) + stuck;
    NoSourceIsCyclic(g, stuck);
  }

  lemma ReadyKept(g: Digraph, indegree: map<string, int>, out: seq<string>, ready: seq<string>, nxt: string)
    requires ReadyList(g, indegree, out, ready)
    requires nxt in g && nxt !in out && indegree[nxt] > 0
    ensures var lowered := indegree[nxt := indegree[nxt] - 1];
      ReadyList(g, lowered, out, if lowered[nxt] == 0 then Sort(ready + [nxt]) else ready)
  {
    var lowered := indegree[nxt := indegree[nxt] - 1];
    assert ReadyAt(indegree, out, ready, nxt);
    if lowered[nxt] == 0 {
      SortMembers(ready + [nxt]);
      forall v ensures ReadyAt(lowered, out, Sort(ready + [nxt]), v) {
        assert ReadyAt(indegree, out, ready, v);
      }
    } else {
      forall v ensures ReadyAt(lowered, out, ready, v) {
        assert ReadyAt(indegree, out, ready, v);
      }
    }
  }

  /** One decrement of the inner loop. */
  lemma DecrementSuccessor(g: Digraph, predecessors: map<string, seq<string>>, indegree: map<string, int>,
                           before: seq<string>, cur: string, ready: seq<string>, i: nat)
    requires Mirrors(g, predecessors) && Closed(g) && cur in g && cur !in before
    requires i < |g[cur]|
    requires Counted(g, predecessors, indegree, before, g[cur][..i])
    requires ReadyList(g, indegree, before + [cur], ready)
    requires AllDone(g, predecessors, before, before + [cur])
    ensures g[cur][i] in indegree
    ensures var nxt := g[cur][i];
      var lowered := indegree[nxt := indegree[nxt] - 1];
      && Counted(g, predecessors, lowered, before, g[cur][..i + 1])
      && ReadyList(g, lowered, before + [cur], if lowered[nxt] == 0 then Sort(ready + [nxt]) else ready)
  {
    SuccessorUnplaced(g, predecessors, indegree, before, cur, i);
    var nxt := g[cur][i];
    var lowered := indegree[nxt := indegree[nxt] - 1];
    ReadyKept(g, indegree, before + [cur], ready, nxt);
    assert g[cur][..i + 1] == g[cur][..i] + [nxt];
    forall v | v in g ensures CountedAt(predecessors, lowered, Elems(before), g[cur][..i + 1], v) {
      assert CountedAt(predecessors, indegree, Elems(before), g[cur][..i], v);
    }
  }

  /** The inner loop: decrements the counter of each listed successor of the
      node just placed and inserts those that reach zero into the ready list. */
  method ReleaseSuccessors(g: Digraph, ghost predecessors: map<string, seq<string>>, ghost before: seq<string>,
                           cur: string, indegree: map<string, int>, ready: seq<string>)
    returns (indegree': map<string, int>, ready': seq<string>)
    requires Closed(g) && Mirrors(g, predecessors) && cur in g && cur !in before
    requires Counted(g, predecessors, indegree, before, [])
    requires ReadyList(g, indegree, before + [cur], ready)
    requires AllDone(g, predecessors, before, before + [cur])
    ensures Counted(g, predecessors, indegree', before + [cur], [])
    ensures ReadyList(g, indegree', before + [cur], ready')
  {
    indegree', ready' := indegree, ready;
    var succ := g[cur];
    assert succ[..0] == [];
    for i := 0 to |succ|
      invariant Counted(g, predecessors, indegree', before, succ[..i])
      invariant ReadyList(g, indegree', before + [cur], ready')
    {
      var nxt := succ[i];
      DecrementSuccessor(g, predecessors, indegree', before, cur, ready', i);
      indegree' := indegree'[nxt := indegree'[nxt] - 1];
      if indegree'[nxt] == 0 {
        ready' := Sort(ready' + [nxt]);
      }
    }
    assert succ[..|succ|] == succ;
    RoundEnds(g, predecessors, indegree', before, cur);
  }

  lemma InitialCounts(g: Digraph, predecessors: map<string, seq<string>>, indegree: map<string, int>,
                      sources: seq<string>)
    requires predecessors.Keys == g.Keys == indegree.Keys
    requires forall v :: v in g ==> indegree[v] == |predecessors[v]|
    requires NoDup(sources) && forall v :: v in sources <==> v in indegree && indegree[v] == 0
    ensures Counted(g, predecessors, indegree, [], [])
    ensures ReadyList(g, indegree, [], Sort(sources))
  {
    forall v | v in g ensures CountedAt(predecessors, indegree, Elems([]), [], v) {
      assert Elems<string>([]) == {};
      RemainingOfNone(predecessors[v]);
    }
    SortMembers(sources);
    forall v ensures ReadyAt(indegree, [], Sort(sources), v) {
    }
  }

  /** Taking the head off the ready list and placing it. */
  lemma PlaceHead(g: Digraph, predecessors: map<string, seq<string>>, indegree: map<string, int>,
                  out: seq<string>, ready: seq<string>)
    requires Mirrors(g, predecessors) && Greedy(g, out) && ready != []
    requires NoDup(out) && Elems(out) <= g.Keys
    requires Counted(g, predecessors, indegree, out, []) && ReadyList(g, indegree, out, ready)
    ensures ready[0] in g && ready[0] !in out
    ensures Greedy(g, out + [ready[0]]) && NoDup(out + [ready[0]])
    ensures Elems(out + [ready[0]]) <= g.Keys && |out| < |g.Keys|
    ensures ReadyList(g, indegree, out + [ready[0]], ready[1..])
    ensures AllDone(g, predecessors, out, out + [ready[0]])
  {
    var cur, next := ready[0], out + [ready[0]];
    assert cur in ready && ReadyAt(indegree, out, ready, cur);
    HeadIsGreedy(g, predecessors, indegree, out, ready);
    PlacedIsDone(g, predecessors, out);
    assert CountedAt(predecessors, indegree, Elems(out), [], cur);
    forall v | v in next ensures DoneAt(g, predecessors, out, v) {
      assert v in out ==> DoneAt(g, predecessors, out, v);
    }
    NoDupFitsInto(next, g.Keys);
    assert ready == [cur] + ready[1..];
    forall v ensures ReadyAt(indegree, next, ready[1..], v) {
      assert ReadyAt(indegree, out, ready, v);
    }
  }

  /** What the finished list is worth. */
  lemma PlacedAll(g: Digraph, out: seq<string>)
    requires Closed(g) && Greedy(g, out) && NoDup(out) && Elems(out) == g.Keys
    ensures IsTopological(g, out) && !Cyclic(g)
    ensures forall o :: IsTopological(g, o) ==> LexAtMost(out, o)
  {
    GreedyIsTopological(g, out);
    TopologicalIsAcyclic(g, out);
    forall o | IsTopological(g, o) ensures LexAtMost(out, o) {
      GreedyIsLeast(g, out, o);
    }
  }

  /** When nothing is ready: a short list means a cycle, a full one is a topological order. */
  lemma NothingReady(g: Digraph, predecessors: map<string, seq<string>>, indegree: map<string, int>, out: seq<string>)
    requires Closed(g) && Mirrors(g, predecessors) && Greedy(g, out)
    requires NoDup(out) && Elems(out) <= g.Keys
    requires Counted(g, predecessors, indegree, out, []) && ReadyList(g, indegree, out, [])
    ensures |out| != |g| ==> Cyclic(g)
    ensures |out| == |g| ==> IsTopological(g, out) && !Cyclic(g)
    ensures |out| == |g| ==> forall o :: IsTopological(g, o) ==> LexAtMost(out, o)
  {
    NoDupFitsInto(out, g.Keys);
    NoDupLength(out);
    assert |g| == |g.Keys|;
    if |out| == |g| {
      PlacedAll(g, out);
    } else {
      assert |Elems(out)| != |g.Keys|;
      assert Elems(out) != g.Keys;
      StuckIsCyclic(g, predecessors, indegree, out);
    }
  }

  /** Fails exactly on a cycle; otherwise the least of all topological orders.
      `g` lists the successors of each node. */
  method TopologicalOrder(g: Digraph, predecessors: map<string, seq<string>>) returns (r: Result<seq<string>, string>)
    requires Closed(g) && Mirrors(g, predecessors)
    ensures r.Failure? <==> Cyclic(g)
    ensures r.Success? ==> IsTopological(g, r.value)
    ensures r.Success? ==> forall o :: IsTopological(g, o) ==> LexAtMost(r.value, o)
  {
    var indegree := map id | id in predecessors :: |predecessors[id]|;
    var sources := KeysAtZero(indegree);
    var ready := Sort(sources);
    var out: seq<string> := [];
    InitialCounts(g, predecessors, indegree, sources);
    while ready != []
      invariant NoDup(out) && Elems(out) <= g.Keys && Greedy(g, out)
      invariant Counted(g, predecessors, indegree, out, [])
      invariant ReadyList(g, indegree, out, ready)
      decreases |g.Keys| - |out|
    {
      var cur := ready[0];
      PlaceHead(g, predecessors, indegree, out, ready);
      indegree, ready := ReleaseSuccessors(g, predecessors, out, cur, indegree, ready[1..]);
      out := out + [cur];
    }
    NothingReady(g, predecessors, indegree, out);
    if |out| != |g| {
      return Failure("semantic program contains a cycle");
    }
    return Success(out);
  }
}
