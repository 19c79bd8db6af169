/** What a run means without an order: the outcome of every node is fixed by the
    outcomes of its predecessors, those equations have one solution on a DAG, and
    a run over any topological order computes it. */
module OrderIndependence {
  import opened Wrappers
  import opened Order
  import opened Graph
  import opened Schema
  import opened TopologicalOrder
  import opened Execution

  datatype Outcome = Blocked | Visited(visit: Visit)

  predicate Closes(o: Outcome) {
    o.Visited? && ClosesPath(o.visit)
  }

  /** The run cannot go on after this outcome. */
  predicate Stops(o: Outcome) {
    o.Visited? && (o.visit.Aborted? || o.visit.CastFailed?)
  }

  function ResultIn(o: Outcome): Option<CastResult> {
    if o.Visited? then ResultOf(o.visit) else None
  }

  function ResultsIn(predecessors: seq<string>, f: map<string, Outcome>): seq<CastResult> {
    if predecessors == [] then []
    else
      var last := predecessors[|predecessors| - 1];
      ResultsIn(predecessors[..|predecessors| - 1], f)
        + if last in f && ResultIn(f[last]).Some? then [ResultIn(f[last]).value] else []
  }

  predicate ClosedBefore(predecessors: seq<string>, f: map<string, Outcome>) {
    exists p <- predecessors :: p in f && Closes(f[p])
  }

  /** The outcome of a node, from the outcomes of its direct predecessors. */
  function Local(setup: Setup, f: map<string, Outcome>, id: string): Outcome
    requires ValidSetup(setup) && id in setup.nodes
  {
    if ClosedBefore(setup.predecessors[id], f) then Blocked
    else Visited(VisitNode(setup.nodes[id], ResultsIn(setup.predecessors[id], f), setup.attempt, setup.branchId))
  }

  ghost predicate Solves(setup: Setup, f: map<string, Outcome>)
    requires ValidSetup(setup)
  {
    && f.Keys == setup.nodes.Keys
    && forall id {:trigger Local(setup, f, id)} :: id in setup.nodes ==> f[id] == Local(setup, f, id)
  }

  /** A setup as compile_program and execute_program build it. */
  ghost predicate GraphSetup(setup: Setup) {
    && ValidSetup(setup)
    && Closed(Successors(setup.nodes))
    && Mirrors(Successors(setup.nodes), setup.predecessors)
  }

  ghost predicate OrderOf(setup: Setup, o: seq<string>) {
    IsTopological(Successors(setup.nodes), o)
  }

  ghost predicate AgreeAt(f: map<string, Outcome>, h: map<string, Outcome>, p: string) {
    (p in f <==> p in h) && (p in f && p in h ==> f[p] == h[p])
  }

  lemma {:induction false} ResultsAgree(predecessors: seq<string>, f: map<string, Outcome>, h: map<string, Outcome>)
    requires forall p :: p in predecessors ==> AgreeAt(f, h, p)
    ensures ResultsIn(predecessors, f) == ResultsIn(predecessors, h)
  {
    if predecessors != [] {
      var last := predecessors[|predecessors| - 1];
      assert AgreeAt(f, h, last);
      ResultsAgree(predecessors[..|predecessors| - 1], f, h);
    }
  }

  lemma LocalAgrees(setup: Setup, f: map<string, Outcome>, h: map<string, Outcome>, id: string)
    requires ValidSetup(setup) && id in setup.nodes
    requires forall p :: p in setup.predecessors[id] ==> AgreeAt(f, h, p)
    ensures Local(setup, f, id) == Local(setup, h, id)
  {
    ResultsAgree(setup.predecessors[id], f, h);
    assert forall p :: p in setup.predecessors[id] ==> AgreeAt(f, h, p);
  }

  /** In a topological order, the predecessors of entry `k` are entries before `k`. */
  lemma PredecessorsPlaced(setup: Setup, o: seq<string>, k: nat)
    requires GraphSetup(setup) && OrderOf(setup, o) && k < |o|
    ensures o[k] in setup.nodes
    ensures forall p :: p in setup.predecessors[o[k]] ==> p in o[..k]
  {
    var g := Successors(setup.nodes);
    assert o[k] in Elems(o);
    EntryAvailable(g, o, k);
    forall p | p in setup.predecessors[o[k]] ensures p in o[..k] {
      MirrorsEdges(g, setup.predecessors, p, o[k]);
      assert p in Elems(o[..k]);
    }
  }

  /** The solution, computed along an order. */
  function Meaning(setup: Setup, o: seq<string>): (f: map<string, Outcome>)
    requires ValidSetup(setup) && forall id :: id in o ==> id in setup.nodes
    ensures f.Keys == Elems(o)
  {
    if o == [] then map[]
    else
      var last := o[|o| - 1];
      assert o == o[..|o| - 1] + [last];
      var before := Meaning(setup, o[..|o| - 1]);
      before[last := Local(setup, before, last)]
  }

  lemma OrderInNodes(setup: Setup, o: seq<string>)
    requires OrderOf(setup, o)
    ensures forall id :: id in o <==> id in setup.nodes
  {
    assert forall id :: id in o <==> id in Elems(o);
  }

  lemma {:induction false} MeaningOfPrefix(setup: Setup, o: seq<string>, k: nat)
    requires ValidSetup(setup) && forall id :: id in o ==> id in setup.nodes
    requires NoDup(o) && k <= |o|
    ensures forall id :: id in o[..k] ==> Meaning(setup, o)[id] == Meaning(setup, o[..k])[id]
  {
    if k < |o| {
      var front := o[..|o| - 1];
      MeaningOfPrefix(setup, front, k);
      assert front[..k] == o[..k];
      forall id | id in o[..k] ensures Meaning(setup, o)[id] == Meaning(setup, o[..k])[id] {
        assert id in front && id != o[|o| - 1];
      }
    } else {
      assert o[..k] == o;
    }
  }

  /** The computed outcomes satisfy every local equation. */
  lemma MeaningSolves(setup: Setup, o: seq<string>)
    requires GraphSetup(setup) && OrderOf(setup, o) && forall id :: id in o ==> id in setup.nodes
    ensures Solves(setup, Meaning(setup, o))
  {
    OrderInNodes(setup, o);
    forall id | id in setup.nodes ensures Meaning(setup, o)[id] == Local(setup, Meaning(setup, o), id) {
      assert id in Elems(o);
      var k :| 0 <= k < |o| && o[k] == id;
      MeaningSolvesAt(setup, o, k);
    }
  }

  /** The outcomes computed so far settle those of the predecessors of what comes next. */
  lemma PrefixAgrees(setup: Setup, o: seq<string>, k: nat)
    requires GraphSetup(setup) && OrderOf(setup, o) && k < |o| && forall id :: id in o ==> id in setup.nodes
    ensures forall p :: p in setup.predecessors[o[k]] ==> AgreeAt(Meaning(setup, o), Meaning(setup, o[..k]), p)
  {
    MeaningOfPrefix(setup, o, k);
    PredecessorsPlaced(setup, o, k);
    forall p | p in setup.predecessors[o[k]] ensures AgreeAt(Meaning(setup, o), Meaning(setup, o[..k]), p) {
      assert p in o[..k] && p in o;
    }
  }

  lemma MeaningSolvesAt(setup: Setup, o: seq<string>, k: nat)
    requires GraphSetup(setup) && OrderOf(setup, o) && k < |o| && forall id :: id in o ==> id in setup.nodes
    ensures Meaning(setup, o)[o[k]] == Local(setup, Meaning(setup, o), o[k])
  {
    var f, before, id := Meaning(setup, o), Meaning(setup, o[..k]), o[k];
    MeaningOfPrefix(setup, o, k + 1);
    assert o[..k + 1][..k] == o[..k] && id in o[..k + 1];
    PrefixAgrees(setup, o, k);
    LocalAgrees(setup, f, before, id);
    assert Meaning(setup, o[..k + 1])[id] == Local(setup, before, id);
  }

  /** On a DAG the local equations have at most one solution. */
  lemma {:induction false} SolutionIsUnique(setup: Setup, o: seq<string>, f: map<string, Outcome>,
                                            h: map<string, Outcome>, k: nat)
    requires GraphSetup(setup) && OrderOf(setup, o) && k <= |o|
    requires Solves(setup, f) && Solves(setup, h)
    ensures forall id :: id in o[..k] ==> id in f && id in h && f[id] == h[id]
  {
    if k > 0 {
      SolutionIsUnique(setup, o, f, h, k - 1);
      SolutionsAgreeAt(setup, o, f, h, k - 1);
      forall id | id in o[..k] ensures id == o[k - 1] || id in o[..k - 1] {}
    }
  }

  lemma SolutionsAgreeAt(setup: Setup, o: seq<string>, f: map<string, Outcome>, h: map<string, Outcome>, k: nat)
    requires GraphSetup(setup) && OrderOf(setup, o) && k < |o|
    requires Solves(setup, f) && Solves(setup, h)
    requires forall id :: id in o[..k] ==> id in f && id in h && f[id] == h[id]
    ensures o[k] in f && o[k] in h && f[o[k]] == h[o[k]]
  {
    PredecessorsPlaced(setup, o, k);
    forall p | p in setup.predecessors[o[k]] ensures AgreeAt(f, h, p) {
      assert p in o[..k];
    }
    LocalAgrees(setup, f, h, o[k]);
    assert f[o[k]] == Local(setup, f, o[k]) && h[o[k]] == Local(setup, h, o[k]);
  }

  // ---- The state of a run, read off the outcomes ----

  ghost predicate NoStop(f: map<string, Outcome>, o: seq<string>) {
    forall id :: id in o ==> id in f && !Stops(f[id])
  }

  function ResultMap(f: map<string, Outcome>, o: seq<string>): (r: map<string, CastResult>)
    ensures forall id :: id in r <==> id in o && id in f && ResultIn(f[id]).Some?
    ensures forall id :: id in r ==> r[id] == ResultIn(f[id]).value
  {
    if o == [] then map[]
    else
      var last := o[|o| - 1];
      assert o == o[..|o| - 1] + [last];
      var r := ResultMap(f, o[..|o| - 1]);
      if last in f && ResultIn(f[last]).Some? then r[last := ResultIn(f[last]).value] else r
  }

  function BlockedBy(setup: Setup, f: map<string, Outcome>, o: seq<string>): (r: set<string>)
    requires forall id :: id in o ==> id in setup.nodes
    ensures forall x :: x in r <==> exists u :: u in o && u in f && Closes(f[u]) && x in setup.nodes[u].successors
  {
    if o == [] then {}
    else
      var last := o[|o| - 1];
      assert o == o[..|o| - 1] + [last];
      BlockedBy(setup, f, o[..|o| - 1])
        + if last in f && Closes(f[last]) then (set x | x in setup.nodes[last].successors) else {}
  }

  function OutcomeReceipts(id: string, o: Outcome): seq<Receipt> {
    if o.Visited? then ReceiptsOf(id, o.visit) else []
  }

  function Trace(f: map<string, Outcome>, o: seq<string>): (r: seq<Receipt>) {
    if o == [] then []
    else
      var last := o[|o| - 1];
      Trace(f, o[..|o| - 1]) + if last in f then OutcomeReceipts(last, f[last]) else []
  }

  function Queue(setup: Setup, f: map<string, Outcome>, o: seq<string>): seq<Node>
    requires forall id :: id in o ==> id in setup.nodes
  {
    if o == [] then []
    else
      var last := o[|o| - 1];
      Queue(setup, f, o[..|o| - 1])
        + if last in f && f[last].Visited? && f[last].visit.CastDone? then [setup.nodes[last]] else []
  }

  ghost function StateAfter(setup: Setup, f: map<string, Outcome>, o: seq<string>): RunState
    requires forall id :: id in o ==> id in setup.nodes
  {
    RunState(BlockedBy(setup, f, o), ResultMap(f, o), Trace(f, o), Queue(setup, f, o), Going)
  }

  lemma {:induction false} PredResultsFromOutcomes(predecessors: seq<string>, f: map<string, Outcome>, o: seq<string>)
    requires forall p :: p in predecessors ==> p in o
    ensures PredResults(predecessors, ResultMap(f, o)) == ResultsIn(predecessors, f)
  {
    if predecessors != [] {
      PredResultsFromOutcomes(predecessors[..|predecessors| - 1], f, o);
    }
  }

  /** In a run that has reached entry `k`, visiting it is what its local equation says. */
  lemma VisitIsLocal(setup: Setup, o: seq<string>, f: map<string, Outcome>, k: nat)
    requires GraphSetup(setup) && OrderOf(setup, o) && Solves(setup, f) && k < |o|
    requires forall id :: id in o ==> id in setup.nodes
    ensures var s := StateAfter(setup, f, o[..k]);
      f[o[k]] == if o[k] in s.blocked then Blocked else Visited(VisitIn(setup, s, o[k]))
  {
    var id, placed := o[k], o[..k];
    var g := Successors(setup.nodes);
    PredecessorsPlaced(setup, o, k);
    PredResultsFromOutcomes(setup.predecessors[id], f, placed);
    assert f[id] == Local(setup, f, id);
    if id in BlockedBy(setup, f, placed) {
      var u :| u in placed && u in f && Closes(f[u]) && id in setup.nodes[u].successors;
      assert Edge(g, u, id);
      MirrorsEdges(g, setup.predecessors, u, id);
      assert ClosedBefore(setup.predecessors[id], f);
    } else if ClosedBefore(setup.predecessors[id], f) {
      var p :| p in setup.predecessors[id] && p in f && Closes(f[p]);
      MirrorsEdges(g, setup.predecessors, p, id);
      assert false;
    }
  }

  /** One more entry takes the state through Apply. */
  lemma StateGrows(setup: Setup, f: map<string, Outcome>, o: seq<string>)
    requires ValidSetup(setup) && o != [] && forall id :: id in o ==> id in setup.nodes
    requires o[|o| - 1] in f && !Stops(f[o[|o| - 1]])
    ensures var last, before := o[|o| - 1], StateAfter(setup, f, o[..|o| - 1]);
      StateAfter(setup, f, o)
      == if f[last] == Blocked then before else Apply(before, setup.nodes[last], f[last].visit)
  {
    var last, before := o[|o| - 1], StateAfter(setup, f, o[..|o| - 1]);
    assert before.receipts + [] == before.receipts;
    assert before.queue + [] == before.queue;
    assert before.blocked + {} == before.blocked;
  }

  /** A step over a node whose outcome is known applies that outcome. */
  lemma StepIsOutcome(setup: Setup, s: RunState, id: string, outcome: Outcome)
    requires ValidSetup(setup) && id in setup.nodes && s.halt == Going
    requires outcome == if id in s.blocked then Blocked else Visited(VisitIn(setup, s, id))
    ensures Step(setup, s, id) == if outcome == Blocked then s else Apply(s, setup.nodes[id], outcome.visit)
  {
  }

  lemma RunStep(setup: Setup, o: seq<string>, k: nat)
    requires ValidSetup(setup) && k < |o| && forall id :: id in o ==> id in setup.nodes
    ensures Run(setup, o[..k + 1]) == Step(setup, Run(setup, o[..k]), o[k])
  {
    assert o[..k + 1][..k] == o[..k];
  }

  /** A run follows the solution for as long as no outcome stops it. */
  lemma {:induction false} RunFollows(setup: Setup, o: seq<string>, f: map<string, Outcome>, k: nat)
    requires GraphSetup(setup) && OrderOf(setup, o) && Solves(setup, f) && k <= |o|
    requires forall id :: id in o ==> id in setup.nodes
    requires NoStop(f, o[..k])
    ensures Run(setup, o[..k]) == StateAfter(setup, f, o[..k])
  {
    if k > 0 {
      var front := o[..k - 1];
      assert o[..k][..k - 1] == front;
      forall id | id in front ensures id in o[..k] {}
      RunFollows(setup, o, f, k - 1);
      RunStep(setup, o, k - 1);
      assert Run(setup, o[..k]) == Step(setup, StateAfter(setup, f, front), o[k - 1]);
      VisitIsLocal(setup, o, f, k - 1);
      assert o[k - 1] in o[..k];
      StepIsOutcome(setup, StateAfter(setup, f, front), o[k - 1], f[o[k - 1]]);
      StateGrows(setup, f, o[..k]);
    }
  }

  lemma StopHalts(s: RunState, node: Node, o: Outcome)
    requires Stops(o) && s.halt == Going
    ensures Apply(s, node, o.visit).halt == if o.visit.Aborted? then AbortedAt(node.id) else FailedAt(node.id)
  {
  }

  /** The state in which a run ends when the outcome of entry `k` is the first to stop it. */
  lemma RunStops(setup: Setup, o: seq<string>, f: map<string, Outcome>, k: nat)
    requires GraphSetup(setup) && OrderOf(setup, o) && Solves(setup, f) && k < |o|
    requires forall id :: id in o ==> id in setup.nodes
    requires NoStop(f, o[..k]) && Stops(f[o[k]])
    ensures Run(setup, o) == Apply(StateAfter(setup, f, o[..k]), setup.nodes[o[k]], f[o[k]].visit)
    ensures Run(setup, o).halt == if f[o[k]].visit.Aborted? then AbortedAt(o[k]) else FailedAt(o[k])
  {
    var s := StateAfter(setup, f, o[..k]);
    RunFollows(setup, o, f, k);
    VisitIsLocal(setup, o, f, k);
    RunStep(setup, o, k);
    StopHalts(s, setup.nodes[o[k]], f[o[k]]);
    HaltedStays(setup, o, k + 1);
  }

  lemma {:induction false} FirstStop(f: map<string, Outcome>, o: seq<string>) returns (k: nat)
    requires forall id :: id in o ==> id in f
    ensures k <= |o| && NoStop(f, o[..k])
    ensures k < |o| ==> Stops(f[o[k]])
  {
    k := 0;
    while k < |o| && !Stops(f[o[k]])
      invariant k <= |o| && NoStop(f, o[..k])
    {
      assert o[..k + 1] == o[..k] + [o[k]];
      k := k + 1;
    }
  }

  /** A run completes exactly when no outcome of the solution stops it, and then it
      ends with exactly the solution's results, blocked set and receipts. */
  lemma RunComputesSolution(setup: Setup, o: seq<string>, f: map<string, Outcome>)
    requires GraphSetup(setup) && OrderOf(setup, o) && Solves(setup, f)
    requires forall id :: id in o ==> id in setup.nodes
    ensures Run(setup, o).halt == Going <==> NoStop(f, o)
    ensures NoStop(f, o) ==> Run(setup, o) == StateAfter(setup, f, o)
  {
    OrderInNodes(setup, o);
    var k := FirstStop(f, o);
    if k == |o| {
      assert o[..k] == o;
      RunFollows(setup, o, f, k);
    } else {
      RunStops(setup, o, f, k);
      assert o[k] in o;
    }
  }

  lemma {:induction false} TraceMembers(f: map<string, Outcome>, o: seq<string>, r: Receipt)
    requires forall id :: id in o ==> id in f
    ensures r in Trace(f, o) <==> r.nodeId in o && OutcomeReceipts(r.nodeId, f[r.nodeId]) == [r]
  {
    if o != [] {
      var front, last := o[..|o| - 1], o[|o| - 1];
      assert o == front + [last];
      TraceMembers(f, front, r);
      OwnReceipts(last, f[last], r);
    }
  }

  /** An outcome leaves at most one receipt, and it is its own node's. */
  lemma OwnReceipts(id: string, o: Outcome, r: Receipt)
    ensures r in OutcomeReceipts(id, o) <==> r.nodeId == id && OutcomeReceipts(id, o) == [r]
  {
  }

  /** No receipt is left twice. */
  lemma {:induction false} TraceIsNoDup(f: map<string, Outcome>, o: seq<string>)
    requires NoDup(o) && forall id :: id in o ==> id in f
    ensures NoDup(Trace(f, o))
  {
    if o != [] {
      var front, last := o[..|o| - 1], o[|o| - 1];
      TraceIsNoDup(f, front);
      var more := OutcomeReceipts(last, f[last]);
      assert |more| <= 1;
      forall r | r in Trace(f, front) ensures r !in more {
        TraceMembers(f, front, r);
        OwnReceipts(last, f[last], r);
      }
      NoDupAppend(Trace(f, front), more);
    }
  }

  /** The nodes a completed run leaves blocked are those whose outcome is Blocked. */
  lemma BlockedOutcomes(setup: Setup, o: seq<string>, f: map<string, Outcome>)
    requires GraphSetup(setup) && OrderOf(setup, o) && Solves(setup, f)
    requires forall id :: id in o ==> id in setup.nodes
    ensures BlockedBy(setup, f, o) == set id | id in setup.nodes && f[id] == Blocked
  {
    OrderInNodes(setup, o);
    var g := Successors(setup.nodes);
    forall x ensures x in BlockedBy(setup, f, o) <==> x in setup.nodes && f[x] == Blocked {
      if x in BlockedBy(setup, f, o) {
        var u :| u in o && u in f && Closes(f[u]) && x in setup.nodes[u].successors;
        assert Edge(g, u, x);
        MirrorsEdges(g, setup.predecessors, u, x);
        assert f[x] == Local(setup, f, x);
      } else if x in setup.nodes && ClosedBefore(setup.predecessors[x], f) {
        var p :| p in setup.predecessors[x] && p in f && Closes(f[p]);
        MirrorsEdges(g, setup.predecessors, p, x);
        assert false;
      }
      if x in setup.nodes {
        assert f[x] == Local(setup, f, x);
      }
    }
  }

  lemma ResultMapOfAll(f: map<string, Outcome>, o: seq<string>)
    requires forall id :: id in o <==> id in f
    ensures ResultMap(f, o) == map id | id in f && ResultIn(f[id]).Some? :: ResultIn(f[id]).value
  {
  }

  lemma TraceOfAll(f: map<string, Outcome>, o: seq<string>)
    requires forall id :: id in o <==> id in f
    ensures forall r :: r in Trace(f, o) <==> r.nodeId in f && OutcomeReceipts(r.nodeId, f[r.nodeId]) == [r]
  {
    forall r ensures r in Trace(f, o) <==> r.nodeId in o && OutcomeReceipts(r.nodeId, f[r.nodeId]) == [r] {
      TraceMembers(f, o, r);
    }
  }

  /** A completed run, node by node. */
  lemma CompletedRun(setup: Setup, o: seq<string>, f: map<string, Outcome>)
    requires GraphSetup(setup) && OrderOf(setup, o) && Solves(setup, f)
    requires forall id :: id in o <==> id in setup.nodes
    requires Run(setup, o).halt == Going
    ensures NoDup(Run(setup, o).receipts)
    ensures forall id :: id in f ==> !Stops(f[id])
    ensures Run(setup, o).results == map id | id in f && ResultIn(f[id]).Some? :: ResultIn(f[id]).value
    ensures Run(setup, o).blocked == set id | id in setup.nodes && f[id] == Blocked
    ensures forall r :: r in Run(setup, o).receipts <==> r.nodeId in f && OutcomeReceipts(r.nodeId, f[r.nodeId]) == [r]
  {
    RunComputesSolution(setup, o, f);
    BlockedOutcomes(setup, o, f);
    ResultMapOfAll(f, o);
    TraceOfAll(f, o);
    TraceIsNoDup(f, o);
  }

  /** Order independence: two topological orders of the same program either both
      stop early or give the same results, the same blocked set and the same receipts. */
  lemma OrderIndependence(setup: Setup, o1: seq<string>, o2: seq<string>)
    requires GraphSetup(setup) && OrderOf(setup, o1) && OrderOf(setup, o2)
    ensures forall id :: id in o1 || id in o2 ==> id in setup.nodes
    ensures Run(setup, o1).halt == Going <==> Run(setup, o2).halt == Going
    ensures Run(setup, o1).halt == Going ==>
      && Run(setup, o1).results == Run(setup, o2).results
      && Run(setup, o1).blocked == Run(setup, o2).blocked
      && multiset(Run(setup, o1).receipts) == multiset(Run(setup, o2).receipts)
  {
    OrderInNodes(setup, o1);
    OrderInNodes(setup, o2);
    var f := Meaning(setup, o1);
    MeaningSolves(setup, o1);
    CompletesExactly(setup, o1, f);
    CompletesExactly(setup, o2, f);
    if Run(setup, o1).halt == Going {
      CompletedRun(setup, o1, f);
      CompletedRun(setup, o2, f);
      SameMembersPermute(Run(setup, o1).receipts, Run(setup, o2).receipts);
    }
  }

  /** Whether a run completes is a matter of the solution alone. */
  lemma CompletesExactly(setup: Setup, o: seq<string>, f: map<string, Outcome>)
    requires GraphSetup(setup) && OrderOf(setup, o) && Solves(setup, f)
    requires forall id :: id in o <==> id in setup.nodes
    ensures Run(setup, o).halt == Going <==> forall id :: id in f ==> !Stops(f[id])
  {
    RunComputesSolution(setup, o, f);
  }

  lemma SolutionsAgree(setup: Setup, o: seq<string>, f: map<string, Outcome>, h: map<string, Outcome>)
    requires GraphSetup(setup) && OrderOf(setup, o) && Solves(setup, f) && Solves(setup, h)
    ensures f == h
  {
    SolutionIsUnique(setup, o, f, h, |o|);
    OrderInNodes(setup, o);
    assert o[..|o|] == o;
  }

  /** On every DAG the local equations have exactly one solution. */
  lemma DagHasOneMeaning(setup: Setup)
    requires GraphSetup(setup) && !Cyclic(Successors(setup.nodes))
    ensures exists f :: Solves(setup, f)
    ensures forall f, h :: Solves(setup, f) && Solves(setup, h) ==> f == h
  {
    AcyclicExactlyOrdered(Successors(setup.nodes));
    var o :| IsTopological(Successors(setup.nodes), o);
    OrderInNodes(setup, o);
    MeaningSolves(setup, o);
    forall f, h | Solves(setup, f) && Solves(setup, h) ensures f == h {
      SolutionsAgree(setup, o, f, h);
    }
  }

  /** The outcomes do not depend on the order they are computed along. */
  lemma MeaningIsOrderIndependent(setup: Setup, o1: seq<string>, o2: seq<string>)
    requires GraphSetup(setup) && OrderOf(setup, o1) && OrderOf(setup, o2)
    ensures forall id :: id in o1 || id in o2 ==> id in setup.nodes
    ensures Meaning(setup, o1) == Meaning(setup, o2)
  {
    OrderInNodes(setup, o1);
    OrderInNodes(setup, o2);
    MeaningSolves(setup, o1);
    MeaningSolves(setup, o2);
    SolutionsAgree(setup, o1, Meaning(setup, o1), Meaning(setup, o2));
  }
}
