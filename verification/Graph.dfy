/** Successor-list graphs: cycles, topological orders, and why a finite set of
    nodes that all have a predecessor inside the set contains a cycle. */
module Graph {
  import opened Order

  /** Each node with its successor list; a successor may be listed repeatedly. */
  type Digraph = map<string, seq<string>>

  ghost predicate Closed(g: Digraph) {
    forall u, v :: Edge(g, u, v) ==> v in g
  }

  ghost predicate Edge(g: Digraph, u: string, v: string) {
    u in g && v in g[u]
  }

  ghost predicate IsPath(g: Digraph, p: seq<string>) {
    |p| > 0 && forall i :: 0 <= i < |p| - 1 ==> Edge(g, p[i], p[i + 1])
  }

  ghost predicate IsCycle(g: Digraph, c: seq<string>) {
    |c| >= 2 && c[0] == c[|c| - 1] && IsPath(g, c)
  }

  ghost predicate Cyclic(g: Digraph) {
    exists c :: IsCycle(g, c)
  }

  /** `d` is a proper descendant of `a`. */
  ghost predicate Descends(g: Digraph, a: string, d: string) {
    exists p :: |p| >= 2 && IsPath(g, p) && p[0] == a && p[|p| - 1] == d
  }

  /** A permutation of the nodes in which every edge points forwards. */
  ghost predicate IsTopological(g: Digraph, o: seq<string>) {
    && NoDup(o)
    && Elems(o) == g.Keys
    && forall i, j :: 0 <= i < |o| && 0 <= j < |o| && Edge(g, o[i], o[j]) ==> i < j
  }

  /** Paths advance in a topological order. */
  lemma {:induction false} PathAdvances(g: Digraph, o: seq<string>, p: seq<string>, i: nat, j: nat)
    requires Closed(g) && IsTopological(g, o)
    requires |p| >= 2 && IsPath(g, p)
    requires i < |o| && j < |o| && o[i] == p[0] && o[j] == p[|p| - 1]
    ensures i < j
  {
    assert Edge(g, p[0], p[1]);
    assert p[1] in Elems(o);
    var k :| 0 <= k < |o| && o[k] == p[1];
    if |p| > 2 {
      var q := p[1..];
      forall m | 0 <= m < |q| - 1 ensures Edge(g, q[m], q[m + 1]) {
        assert Edge(g, p[m + 1], p[m + 2]);
      }
      PathAdvances(g, o, q, k, j);
    }
  }

  /** A graph with a topological order has no cycle. */
  lemma TopologicalIsAcyclic(g: Digraph, o: seq<string>)
    requires Closed(g) && IsTopological(g, o)
    ensures !Cyclic(g)
  {
    forall c ensures !IsCycle(g, c) {
      if IsCycle(g, c) {
        assert Edge(g, c[0], c[1]);
        assert c[0] in Elems(o);
        var i :| 0 <= i < |o| && o[i] == c[0];
        PathAdvances(g, o, c, i, i);
        assert false;
      }
    }
  }

  ghost predicate HasPredecessorIn(g: Digraph, stuck: set<string>, v: string) {
    exists u :: u in stuck && Edge(g, u, v)
  }

  /** Every node of `stuck` has a predecessor in `stuck`. */
  ghost predicate NoSource(g: Digraph, stuck: set<string>) {
    forall v {:trigger HasPredecessorIn(g, stuck, v)} :: v in stuck ==> HasPredecessorIn(g, stuck, v)
  }

  /** Walking backwards inside a set without a source must revisit a node. */
  lemma {:induction false} WalkBack(g: Digraph, stuck: set<string>, p: seq<string>)
    requires NoSource(g, stuck)
    requires IsPath(g, p) && NoDup(p) && Elems(p) <= stuck
    ensures Cyclic(g)
    decreases |stuck| - |p|
  {
    assert p[0] in Elems(p);
    assert HasPredecessorIn(g, stuck, p[0]);
    var u :| u in stuck && Edge(g, u, p[0]);
    var q := [u] + p;
    assert IsPath(g, q) by {
      forall i | 0 <= i < |q| - 1 ensures Edge(g, q[i], q[i + 1]) {
        if i > 0 { assert Edge(g, p[i - 1], p[i]); }
      }
    }
    if u in p {
      var j :| 0 <= j < |p| && p[j] == u;
      var c := q[..j + 2];
      assert IsPath(g, c) by {
        forall i | 0 <= i < |c| - 1 ensures Edge(g, c[i], c[i + 1]) {
          assert Edge(g, q[i], q[i + 1]);
        }
      }
      assert IsCycle(g, c);
    } else {
      NoDupFitsInto(q, stuck);
      WalkBack(g, stuck, q);
    }
  }

  lemma NoSourceIsCyclic(g: Digraph, stuck: set<string>)
    requires stuck != {} && NoSource(g, stuck)
    ensures Cyclic(g)
  {
    var v :| v in stuck;
    assert Elems([v]) == {v};
    WalkBack(g, stuck, [v]);
  }

  /** `a` is `b` or comes before `b` in the dictionary order of lists of ids. */
  ghost predicate LexAtMost(a: seq<string>, b: seq<string>) {
    a == b || exists k :: FirstDifference(a, b, k) && Less(a[k], b[k])
  }

  ghost predicate FirstDifference(a: seq<string>, b: seq<string>, k: int) {
    0 <= k < |a| && k < |b| && a[..k] == b[..k] && a[k] != b[k]
  }

  /** `v` may come next: it is not placed and all its predecessors are. */
  ghost predicate Available(g: Digraph, placed: set<string>, v: string) {
    v in g && v !in placed && forall u :: Edge(g, u, v) ==> u in placed
  }

  /** Each entry is the least node that may come next. */
  ghost predicate Greedy(g: Digraph, o: seq<string>) {
    forall k :: 0 <= k < |o| ==> GreedyAt(g, o, k)
  }

  ghost predicate GreedyAt(g: Digraph, o: seq<string>, k: nat)
    requires k < |o|
  {
    && Available(g, Elems(o[..k]), o[k])
    && forall v :: Available(g, Elems(o[..k]), v) ==> AtMost(o[k], v)
  }

  /** In a topological order every entry was available when it was placed. */
  lemma EntryAvailable(g: Digraph, o: seq<string>, k: nat)
    requires Closed(g) && IsTopological(g, o) && k < |o|
    ensures Available(g, Elems(o[..k]), o[k])
  {
    assert o[k] in Elems(o);
    forall u | Edge(g, u, o[k]) ensures u in o[..k] {
      assert u in Elems(o);
      var i :| 0 <= i < |o| && o[i] == u;
      assert i < k;
    }
  }

  /** A list of distinct nodes, each placed after all its predecessors. */
  ghost predicate Placed(g: Digraph, o: seq<string>) {
    NoDup(o) && Elems(o) <= g.Keys && forall k {:trigger o[k]} :: 0 <= k < |o| ==> Available(g, Elems(o[..k]), o[k])
  }

  /** Unless the unplaced nodes hold a cycle, one of them may come next. */
  lemma SomeAvailable(g: Digraph, placed: set<string>) returns (v: string)
    requires Closed(g) && !Cyclic(g) && placed < g.Keys
    ensures Available(g, placed, v)
  {
    var rest := g.Keys - placed;
    assert g.Keys == placed + rest;
    if NoSource(g, rest) {
      NoSourceIsCyclic(g, rest);
    }
    v :| v in rest && !HasPredecessorIn(g, rest, v);
    forall u | Edge(g, u, v) ensures u in placed {
      assert u !in rest;
    }
  }

  /** Placing nodes in order can go on until all are placed. */
  lemma {:induction false} CompleteOrder(g: Digraph, o: seq<string>) returns (r: seq<string>)
    requires Closed(g) && !Cyclic(g) && Placed(g, o)
    ensures IsTopological(g, r)
    decreases |g.Keys| - |o|
  {
    NoDupFitsInto(o, g.Keys);
    if Elems(o) == g.Keys {
      r := o;
      forall i, j | 0 <= i < |o| && 0 <= j < |o| && Edge(g, o[i], o[j]) ensures i < j {
        assert o[i] in Elems(o[..j]);
      }
    } else {
      var v := SomeAvailable(g, Elems(o));
      PlaceNext(g, o, v);
      NoDupFitsInto(o + [v], g.Keys);
      r := CompleteOrder(g, o + [v]);
    }
  }

  lemma PlaceNext(g: Digraph, o: seq<string>, v: string)
    requires Placed(g, o) && Available(g, Elems(o), v)
    ensures Placed(g, o + [v])
  {
    assert v !in o;
    forall k | 0 <= k < |o + [v]| ensures Available(g, Elems((o + [v])[..k]), (o + [v])[k]) {
      assert (o + [v])[..k] == o[..k];
      assert k == |o| ==> o[..k] == o;
    }
  }

  /** A closed graph has a topological order exactly when it has no cycle. */
  lemma AcyclicExactlyOrdered(g: Digraph)
    requires Closed(g)
    ensures !Cyclic(g) <==> exists o :: IsTopological(g, o)
  {
    if !Cyclic(g) {
      var o := CompleteOrder(g, []);
    }
    if o :| IsTopological(g, o) {
      TopologicalIsAcyclic(g, o);
    }
  }

  lemma {:induction false} FindDifference(a: seq<string>, b: seq<string>) returns (k: nat)
    requires |a| == |b| && a != b
    ensures FirstDifference(a, b, k)
  {
    k := 0;
    while a[k] == b[k]
      invariant k < |a|
      invariant a[..k] == b[..k]
      decreases |a| - k
    {
      assert a[..k + 1] == a[..k] + [a[k]] && b[..k + 1] == b[..k] + [b[k]];
      assert a == a[..k + 1] + a[k + 1..] && b == b[..k + 1] + b[k + 1..];
      k := k + 1;
    }
  }

  /** A greedy topological order is lexicographically least among all of them. */
  lemma GreedyIsLeast(g: Digraph, o: seq<string>, other: seq<string>)
    requires Closed(g) && IsTopological(g, o) && Greedy(g, o)
    requires IsTopological(g, other)
    ensures LexAtMost(o, other)
  {
    if o != other {
      NoDupLength(o);
      NoDupLength(other);
      var k := FindDifference(o, other);
      EntryAvailable(g, other, k);
      assert GreedyAt(g, o, k);
    }
  }
}
