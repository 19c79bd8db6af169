/** What the results and receipts of a completed run say about each node, in terms of
    its direct predecessors' results and receipts. */
module NodeLaws {
  import opened Wrappers
  import Order
  import opened Schema
  import opened Vectors
  import opened TopologicalOrder
  import opened Execution
  import opened ExecutionLaws
  import opened Conditions
  import OI = OrderIndependence

  ghost predicate HasReceipt(receipts: seq<Receipt>, id: string, status: ReceiptStatus) {
    exists r :: r in receipts && r.nodeId == id && r.status == status
  }

  lemma ReceiptStatusOf(receipts: seq<Receipt>, f: map<string, OI.Outcome>, id: string, status: ReceiptStatus)
    requires id in f
    requires forall r :: r in receipts <==> r.nodeId in f && OI.OutcomeReceipts(r.nodeId, f[r.nodeId]) == [r]
    ensures HasReceipt(receipts, id, status) <==>
      OI.OutcomeReceipts(id, f[id]) != [] && OI.OutcomeReceipts(id, f[id])[0].status == status
  {
    if OI.OutcomeReceipts(id, f[id]) != [] {
      var r := OI.OutcomeReceipts(id, f[id])[0];
      assert OI.OutcomeReceipts(id, f[id]) == [r] && r.nodeId == id;
      assert r in receipts;
    }
  }

  lemma SkippedCloses(id: string, o: OI.Outcome)
    ensures OI.Closes(o) <==> OI.OutcomeReceipts(id, o) != [] && OI.OutcomeReceipts(id, o)[0].status == SkippedReceipt
  {
  }

  /** Blocking reaches one hop: a node is blocked exactly when a direct predecessor was skipped. */
  lemma BlockedExactlyBySkipped(setup: Setup, o: seq<string>, id: string)
    requires OI.GraphSetup(setup) && OI.OrderOf(setup, o) && forall id :: id in o ==> id in setup.nodes
    requires Run(setup, o).halt == Going && id in setup.nodes
    ensures id in Run(setup, o).blocked <==>
      exists p :: p in setup.predecessors[id] && HasReceipt(Run(setup, o).receipts, p, SkippedReceipt)
  {
    var f := OI.Meaning(setup, o);
    OI.OrderInNodes(setup, o);
    OI.MeaningSolves(setup, o);
    OI.CompletedRun(setup, o, f);
    assert f[id] == OI.Local(setup, f, id);
    forall p | p in setup.predecessors[id]
      ensures p in f && (OI.Closes(f[p]) <==> HasReceipt(Run(setup, o).receipts, p, SkippedReceipt))
    {
      MirrorsEdges(Successors(setup.nodes), setup.predecessors, p, id);
      ReceiptStatusOf(Run(setup, o).receipts, f, p, SkippedReceipt);
      SkippedCloses(p, f[p]);
    }
  }

  /** `child` is linked to `parent`: one deeper, on the run's branch, and its divergence
      vector leads from the parent's vector to its own. */
  ghost predicate IsChildOf(child: CastResult, parent: CastResult, branchId: string) {
    && child.lineage.Some?
    && child.lineage.value.parentCastId == parent.castId
    && child.lineage.value.depth == 1 + (if parent.lineage.Some? then parent.lineage.value.depth else 0)
    && child.lineage.value.branchId == branchId
    && forall i: nat :: At(parent.vector, i) + At(child.lineage.value.divergence, i) == At(child.vector, i)
  }

  /** The first of the best: nothing is better, everything before it is worse. */
  ghost predicate FirstOfBest(r: CastResult, results: seq<CastResult>) {
    exists i :: 0 <= i < |results| && results[i] == r
      && (forall j :: 0 <= j < i ==> results[j].adjusted < r.adjusted)
      && (forall j :: 0 <= j < |results| ==> results[j].adjusted <= r.adjusted)
  }

  ghost predicate FirstCoherentOrFirst(r: CastResult, results: seq<CastResult>) {
    exists i :: 0 <= i < |results| && results[i] == r
      && (forall j :: 0 <= j < i ==> results[j].verdict != Coherent)
      && (r.verdict != Coherent ==> i == 0 && forall j :: 0 <= j < |results| ==> results[j].verdict != Coherent)
  }

  lemma {:induction false} FirstCoherentIndex(results: seq<CastResult>)
    requires results != []
    ensures FirstCoherentOrFirst(FirstCoherentOf(results), results)
  {
    var r := FirstCoherentOf(results);
    if results[0].verdict != Coherent && |results| > 1 {
      FirstCoherentIndex(results[1..]);
      var rest := FirstCoherentOf(results[1..]);
      var i :| 0 <= i < |results[1..]| && results[1..][i] == rest
        && (forall j :: 0 <= j < i ==> results[1..][j].verdict != Coherent)
        && (rest.verdict != Coherent ==>
              i == 0 && forall j :: 0 <= j < |results[1..]| ==> results[1..][j].verdict != Coherent);
      assert forall j :: 1 <= j < |results| ==> results[j] == results[1..][j - 1];
      assert if rest.verdict == Coherent then results[i + 1] == r else results[0] == r;
    } else {
      assert results[0] == r;
    }
  }

  /** What a cast node's result is: the first answer of the engine, as it is when no predecessor
      has a result, else as the child of the best of their results. Its receipt, `r`, counts
      the attempts before that answer. */
  ghost predicate IsCastOf(setup: Setup, node: Node, result: CastResult, predResults: seq<CastResult>, r: Receipt)
    requires ValidNode(node)
  {
    && r.nodeId == node.id && r.status == OkReceipt
    && r.retries < MaxAttempts(node)
    && FirstAnswer(setup, node.id, r.retries + 1)
    && var base := setup.attempt(node.id, r.retries + 1).result;
       if predResults == [] then result == base
       else
         && result == base.(lineage := result.lineage)
         && exists parent :: FirstOfBest(parent, predResults) && IsChildOf(result, parent, setup.branchId)
  }

  /** Attempt `k` answers, and every attempt before it raises. */
  ghost predicate FirstAnswer(setup: Setup, id: string, k: nat) {
    && k >= 1 && setup.attempt(id, k).Returns?
    && forall j: nat :: 1 <= j < k ==> setup.attempt(id, j).Raises?
  }

  lemma BestIsFirstOfBest(results: seq<CastResult>)
    requires results != []
    ensures FirstOfBest(Best(results), results)
  {
    var i := BestIndex(results);
    assert IsFirstBest(results, i);
    assert results[i] == Best(results);
  }

  lemma LineageLinks(base: CastResult, parent: CastResult, branchId: string)
    ensures IsChildOf(WithLineage(base, parent, branchId), parent, branchId)
  {
  }

  /** How the attempts of a cast that has a result went, and the receipt they left. */
  lemma CastTries(setup: Setup, node: Node, predResults: seq<CastResult>, result: CastResult)
    returns (base: CastResult, r: Receipt)
    requires ValidNode(node) && node.kind != Gate && node.kind != Merge
    requires ResultOf(VisitNode(node, predResults, setup.attempt, setup.branchId)) == Some(result)
    ensures ReceiptsOf(node.id, VisitNode(node, predResults, setup.attempt, setup.branchId)) == [r]
    ensures r.nodeId == node.id && r.status == OkReceipt && r.retries < MaxAttempts(node)
    ensures setup.attempt(node.id, r.retries + 1) == Returns(base) && FirstAnswer(setup, node.id, r.retries + 1)
    ensures result == if predResults == [] then base else WithLineage(base, Best(predResults), setup.branchId)
  {
    var tries := Try(setup.attempt, node.id, 1, MaxAttempts(node));
    TryLaw(setup.attempt, node.id, MaxAttempts(node));
    base := tries.result;
    r := ReceiptsOf(node.id, VisitNode(node, predResults, setup.attempt, setup.branchId))[0];
  }

  lemma LinkedIsCast(setup: Setup, node: Node, predResults: seq<CastResult>, base: CastResult, result: CastResult,
                     r: Receipt)
    requires ValidNode(node) && r.nodeId == node.id && r.status == OkReceipt && r.retries < MaxAttempts(node)
    requires setup.attempt(node.id, r.retries + 1) == Returns(base) && FirstAnswer(setup, node.id, r.retries + 1)
    requires result == if predResults == [] then base else WithLineage(base, Best(predResults), setup.branchId)
    ensures IsCastOf(setup, node, result, predResults, r)
  {
    if predResults != [] {
      BestIsFirstOfBest(predResults);
      LineageLinks(base, Best(predResults), setup.branchId);
    }
  }

  lemma CastVisit(setup: Setup, node: Node, predResults: seq<CastResult>, result: CastResult) returns (r: Receipt)
    requires ValidNode(node) && node.kind != Gate && node.kind != Merge
    requires ResultOf(VisitNode(node, predResults, setup.attempt, setup.branchId)) == Some(result)
    ensures ReceiptsOf(node.id, VisitNode(node, predResults, setup.attempt, setup.branchId)) == [r]
    ensures IsCastOf(setup, node, result, predResults, r)
  {
    var base;
    base, r := CastTries(setup, node, predResults, result);
    LinkedIsCast(setup, node, predResults, base, result, r);
  }

  lemma MergeVisit(setup: Setup, node: Node, predResults: seq<CastResult>, result: CastResult)
    requires ValidNode(node) && node.kind == Merge
    requires ResultOf(VisitNode(node, predResults, setup.attempt, setup.branchId)) == Some(result)
    ensures node.mergeStrategy == Some(FirstCoherent) ==> FirstCoherentOrFirst(result, predResults)
    ensures node.mergeStrategy != Some(FirstCoherent) ==> FirstOfBest(result, predResults)
  {
    if predResults != [] {
      BestIsFirstOfBest(predResults);
      FirstCoherentIndex(predResults);
    }
  }

  lemma ResultsOf(setup: Setup, o: seq<string>, id: string) returns (visit: Visit)
    requires OI.GraphSetup(setup) && OI.OrderOf(setup, o) && forall id :: id in o ==> id in setup.nodes
    requires Run(setup, o).halt == Going && id in setup.nodes && id !in Run(setup, o).blocked
    ensures visit == VisitNode(setup.nodes[id], PredResults(setup.predecessors[id], Run(setup, o).results),
                               setup.attempt, setup.branchId)
    ensures !visit.Aborted? && !visit.CastFailed?
    ensures ResultOf(visit) == if id in Run(setup, o).results then Some(Run(setup, o).results[id]) else None
    ensures forall status :: HasReceipt(Run(setup, o).receipts, id, status) <==>
      ReceiptsOf(id, visit) != [] && ReceiptsOf(id, visit)[0].status == status
    ensures forall r :: r in ReceiptsOf(id, visit) ==> r in Run(setup, o).receipts
  {
    var f := OutcomesOf(setup, o, id);
    visit := f[id].visit;
    var receipts := Run(setup, o).receipts;
    forall r | r in ReceiptsOf(id, visit) ensures r in receipts {
      OI.OwnReceipts(id, f[id], r);
    }
    forall status ensures HasReceipt(receipts, id, status) <==>
      ReceiptsOf(id, visit) != [] && ReceiptsOf(id, visit)[0].status == status
    {
      ReceiptStatusOf(receipts, f, id, status);
    }
  }

  /** In a completed run, the result of every unblocked merge and cast node. */
  lemma ResultsMean(setup: Setup, o: seq<string>, id: string)
    requires OI.GraphSetup(setup) && OI.OrderOf(setup, o) && forall id :: id in o ==> id in setup.nodes
    requires Run(setup, o).halt == Going && id in setup.nodes
    requires id in Run(setup, o).results
    ensures var predResults := PredResults(setup.predecessors[id], Run(setup, o).results);
      var node, result := setup.nodes[id], Run(setup, o).results[id];
      && node.kind != Gate
      && (node.kind == Merge && node.mergeStrategy == Some(FirstCoherent) ==> FirstCoherentOrFirst(result, predResults))
      && (node.kind == Merge && node.mergeStrategy != Some(FirstCoherent) ==> FirstOfBest(result, predResults))
      && (node.kind != Merge ==>
            exists r :: r in Run(setup, o).receipts && IsCastOf(setup, node, result, predResults, r))
  {
    BlockedNeverExecutes(setup, o);
    var visit := ResultsOf(setup, o, id);
    var predResults := PredResults(setup.predecessors[id], Run(setup, o).results);
    if setup.nodes[id].kind == Merge {
      MergeVisit(setup, setup.nodes[id], predResults, Run(setup, o).results[id]);
    } else if setup.nodes[id].kind != Gate {
      var r := CastVisit(setup, setup.nodes[id], predResults, Run(setup, o).results[id]);
      assert r in ReceiptsOf(id, visit);
    }
  }

  /** In a completed run, an unblocked gate whose preconditions hold is OK exactly when some
      predecessor's result has the verdict it waits for, and SKIPPED otherwise. */
  lemma GatesMean(setup: Setup, o: seq<string>, id: string)
    requires OI.GraphSetup(setup) && OI.OrderOf(setup, o) && forall id :: id in o ==> id in setup.nodes
    requires Run(setup, o).halt == Going && id in setup.nodes && id !in Run(setup, o).blocked
    requires setup.nodes[id].kind == Gate
    requires PreconditionsHold(setup.nodes[id], PredResults(setup.predecessors[id], Run(setup, o).results))
    ensures var open := exists r :: r in PredResults(setup.predecessors[id], Run(setup, o).results)
                                    && Some(r.verdict) == setup.nodes[id].gateCondition;
      && (HasReceipt(Run(setup, o).receipts, id, OkReceipt) <==> open)
      && (HasReceipt(Run(setup, o).receipts, id, SkippedReceipt) <==> !open)
  {
    var visit := ResultsOf(setup, o, id);
  }

  // ---- What receipts report ----

  /** A list of verdicts reports these conditions, one each, in order. */
  ghost predicate Reports(verdicts: seq<(string, bool)>, conditions: seq<Condition>, context: map<string, Value>) {
    && |verdicts| == |conditions|
    && forall i :: 0 <= i < |conditions| ==>
         verdicts[i].0 == conditions[i].predicateName && Evaluate(conditions[i].expr, context) == Some(verdicts[i].1)
  }

  ghost predicate SomeFalse(conditions: seq<Condition>, context: map<string, Value>) {
    exists c :: c in conditions && Evaluate(c.expr, context) == Some(false)
  }

  ghost predicate SomeRaises(conditions: seq<Condition>, context: map<string, Value>) {
    exists c :: c in conditions && Evaluate(c.expr, context) == None
  }

  /** What a precondition can ask about: how many predecessor results there are, and if any. */
  ghost function ContextBefore(predResults: seq<CastResult>): (context: map<string, Value>)
    ensures context.Keys == {"pred_count", "has_parent"}
    ensures context["pred_count"] == Num(|predResults| as real)
    ensures context["has_parent"] == Bool(|predResults| > 0)
  {
    PreContext(predResults)
  }

  /** What a postcondition can ask about: the result's resonance and verdict. */
  ghost function ContextAfter(result: CastResult): (context: map<string, Value>)
    ensures context.Keys == {"adjusted_resonance", "verdict"}
    ensures context["adjusted_resonance"] == Num(result.adjusted)
    ensures result.verdict == Coherent ==> context["verdict"] == Str("COHERENT")
    ensures result.verdict == Partial ==> context["verdict"] == Str("PARTIAL")
    ensures result.verdict == Incoherent ==> context["verdict"] == Str("INCOHERENT")
  {
    PostContext(result)
  }

  /** A visit raises, or fails its preconditions, exactly as their evaluation says. */
  lemma PreconditionsDecide(node: Node, predResults: seq<CastResult>, attempt: Oracle, branchId: string)
    requires ValidNode(node)
    ensures var visit := VisitNode(node, predResults, attempt, branchId);
      && (SomeRaises(node.preconditions, ContextBefore(predResults)) ==> visit.Aborted?)
      && (!SomeRaises(node.preconditions, ContextBefore(predResults)) ==>
            (visit.PreconditionFailed? <==> SomeFalse(node.preconditions, ContextBefore(predResults))))
  {
    VerdictsExactly(node.preconditions, PreContext(predResults));
    var visit, context := VisitNode(node, predResults, attempt, branchId), ContextBefore(predResults);
    if !SomeRaises(node.preconditions, context) && !SomeFalse(node.preconditions, context) {
      forall c | c in node.preconditions ensures Evaluate(c.expr, PreContext(predResults)) == Some(true) {
        assert Evaluate(c.expr, ContextBefore(predResults)) != None;
      }
    }
  }

  ghost predicate HasError(receipts: seq<Receipt>, id: string, status: ReceiptStatus, error: Option<string>) {
    exists r :: r in receipts && r.nodeId == id && r.status == status && r.error == error
  }

  /** In a completed run, an unblocked node none of whose preconditions raises is skipped for a failed
      precondition exactly when some precondition is false. */
  lemma SkippedExactly(setup: Setup, o: seq<string>, id: string)
    requires OI.GraphSetup(setup) && OI.OrderOf(setup, o) && forall id :: id in o ==> id in setup.nodes
    requires Run(setup, o).halt == Going && id in setup.nodes && id !in Run(setup, o).blocked
    ensures var context := ContextBefore(PredResults(setup.predecessors[id], Run(setup, o).results));
      && !SomeRaises(setup.nodes[id].preconditions, context)
      && (SomeFalse(setup.nodes[id].preconditions, context) <==>
          HasError(Run(setup, o).receipts, id, SkippedReceipt, Some("precondition_failed")))
  {
    var predResults := PredResults(setup.predecessors[id], Run(setup, o).results);
    var visit := ResultsOf(setup, o, id);
    PreconditionsDecide(setup.nodes[id], predResults, setup.attempt, setup.branchId);
    var receipts := Run(setup, o).receipts;
    if visit.PreconditionFailed? {
      var r := ReceiptsOf(id, visit)[0];
      assert r in ReceiptsOf(id, visit);
    }
    forall r | r in receipts && r.nodeId == id ensures ReceiptsOf(id, visit) == [r] {
      OnlyReceipt(setup, o, id, visit, r);
    }
  }

  /** A completed run's receipt of an unblocked node is the one its visit left. */
  lemma OnlyReceipt(setup: Setup, o: seq<string>, id: string, visit: Visit, r: Receipt)
    requires OI.GraphSetup(setup) && OI.OrderOf(setup, o) && forall id :: id in o ==> id in setup.nodes
    requires Run(setup, o).halt == Going && id in setup.nodes && id !in Run(setup, o).blocked
    requires visit == VisitNode(setup.nodes[id], PredResults(setup.predecessors[id], Run(setup, o).results),
                                setup.attempt, setup.branchId)
    requires r in Run(setup, o).receipts && r.nodeId == id
    ensures ReceiptsOf(id, visit) == [r]
  {
    var f := OutcomesOf(setup, o, id);
    assert f[id] != OI.Blocked;
  }

  /** What the receipt a visit leaves says. */
  ghost predicate TellsOf(r: Receipt, node: Node, predResults: seq<CastResult>, visit: Visit) {
    && Reports(r.pre, node.preconditions, ContextBefore(predResults))
    && (SomeFalse(node.preconditions, ContextBefore(predResults)) ==>
          r.status == SkippedReceipt && r.error == Some("precondition_failed"))
    && (!SomeFalse(node.preconditions, ContextBefore(predResults)) && !visit.CastFailed? ==> r.error == None)
    && (if visit.CastDone? then Reports(r.post, node.postconditions, ContextAfter(visit.result)) else r.post == [])
  }

  lemma VerdictsReport(conditions: seq<Condition>, context: map<string, Value>)
    ensures EvaluateAll(conditions, context).Some? ==>
      Reports(EvaluateAll(conditions, context).value, conditions, context)
  {
    VerdictsExactly(conditions, context);
  }

  /** Where a receipt's verdicts come from. */
  lemma VisitVerdicts(node: Node, predResults: seq<CastResult>, attempt: Oracle, branchId: string, r: Receipt)
    requires ValidNode(node)
    requires r in ReceiptsOf(node.id, VisitNode(node, predResults, attempt, branchId))
    ensures var visit := VisitNode(node, predResults, attempt, branchId);
      && Some(r.pre) == EvaluateAll(node.preconditions, PreContext(predResults))
      && (if visit.CastDone? then Some(r.post) == EvaluateAll(node.postconditions, PostContext(visit.result))
          else r.post == [])
      && (visit.PreconditionFailed? ==> r.status == SkippedReceipt && r.error == Some("precondition_failed"))
      && (!visit.PreconditionFailed? && !visit.CastFailed? ==> r.error == None)
  {
  }

  lemma VisitTells(node: Node, predResults: seq<CastResult>, attempt: Oracle, branchId: string, r: Receipt)
    requires ValidNode(node)
    requires r in ReceiptsOf(node.id, VisitNode(node, predResults, attempt, branchId))
    ensures TellsOf(r, node, predResults, VisitNode(node, predResults, attempt, branchId))
  {
    var visit := VisitNode(node, predResults, attempt, branchId);
    VisitVerdicts(node, predResults, attempt, branchId, r);
    PreconditionsDecide(node, predResults, attempt, branchId);
    VerdictsReport(node.preconditions, PreContext(predResults));
    if visit.CastDone? {
      VerdictsReport(node.postconditions, PostContext(visit.result));
    }
  }

  /** In a completed run, every receipt reports its node's preconditions over the predecessor
      results, and a cast's its postconditions over its result; errors are those of failed
      preconditions only. */
  lemma ReceiptsTell(setup: Setup, o: seq<string>, r: Receipt)
    requires OI.GraphSetup(setup) && OI.OrderOf(setup, o) && forall id :: id in o ==> id in setup.nodes
    requires Run(setup, o).halt == Going && r in Run(setup, o).receipts
    ensures r.nodeId in setup.nodes
    ensures var node, predResults :=
        setup.nodes[r.nodeId], PredResults(setup.predecessors[r.nodeId], Run(setup, o).results);
      && Reports(r.pre, node.preconditions, ContextBefore(predResults))
      && (r.error ==
          if SomeFalse(node.preconditions, ContextBefore(predResults)) then Some("precondition_failed") else None)
      && (if r.status == OkReceipt && node.kind != Gate && node.kind != Merge then
            r.nodeId in Run(setup, o).results
            && Reports(r.post, node.postconditions, ContextAfter(Run(setup, o).results[r.nodeId]))
          else r.post == [])
  {
    var visit := ReceiptVisit(setup, o, r);
    var node, predResults := setup.nodes[r.nodeId], PredResults(setup.predecessors[r.nodeId], Run(setup, o).results);
    VisitTells(node, predResults, setup.attempt, setup.branchId, r);
    VisitKinds(node, predResults, setup.attempt, setup.branchId, r);
  }

  /** An OK receipt of a cast node is left by a completed cast only. */
  lemma VisitKinds(node: Node, predResults: seq<CastResult>, attempt: Oracle, branchId: string, r: Receipt)
    requires ValidNode(node)
    requires r in ReceiptsOf(node.id, VisitNode(node, predResults, attempt, branchId))
    ensures r.status == OkReceipt && node.kind != Gate && node.kind != Merge <==>
      VisitNode(node, predResults, attempt, branchId).CastDone?
  {
  }

  /** The visit behind a completed run's receipt. */
  lemma ReceiptVisit(setup: Setup, o: seq<string>, r: Receipt) returns (visit: Visit)
    requires OI.GraphSetup(setup) && OI.OrderOf(setup, o) && forall id :: id in o ==> id in setup.nodes
    requires Run(setup, o).halt == Going && r in Run(setup, o).receipts
    ensures r.nodeId in setup.nodes
    ensures visit == VisitNode(setup.nodes[r.nodeId], PredResults(setup.predecessors[r.nodeId], Run(setup, o).results),
                               setup.attempt, setup.branchId)
    ensures ReceiptsOf(r.nodeId, visit) == [r] && !visit.CastFailed?
    ensures ResultOf(visit) == if r.nodeId in Run(setup, o).results then Some(Run(setup, o).results[r.nodeId]) else None
  {
    var some := OutcomesAll(setup, o, r);
    BlockedNeverExecutes(setup, o);
    var i :| 0 <= i < |Run(setup, o).receipts| && Run(setup, o).receipts[i] == r;
    assert NodeIds(Run(setup, o).receipts)[i] == r.nodeId;
    visit := ResultsOf(setup, o, r.nodeId);
    OnlyReceipt(setup, o, r.nodeId, visit, r);
  }

  lemma OutcomesAll(setup: Setup, o: seq<string>, r: Receipt) returns (f: map<string, OI.Outcome>)
    requires OI.GraphSetup(setup) && OI.OrderOf(setup, o) && forall id :: id in o ==> id in setup.nodes
    requires Run(setup, o).halt == Going && r in Run(setup, o).receipts
    ensures f.Keys == setup.nodes.Keys && r.nodeId in setup.nodes
    ensures forall r :: r in Run(setup, o).receipts
                   <==> r.nodeId in f && OI.OutcomeReceipts(r.nodeId, f[r.nodeId]) == [r]
  {
    f := OI.Meaning(setup, o);
    OI.OrderInNodes(setup, o);
    OI.MeaningSolves(setup, o);
    OI.CompletedRun(setup, o, f);
  }

  // ---- Predecessor results ----

  /** One result for each listed predecessor that has one, in the order and as often as listed. */
  lemma {:induction false} PredResultsConcat(a: seq<string>, b: seq<string>, results: map<string, CastResult>)
    ensures PredResults(a + b, results) == PredResults(a, results) + PredResults(b, results)
  {
    if b == [] {
      assert a + b == a;
    } else {
      var front := b[..|b| - 1];
      PredResultsConcat(a, front, results);
      assert (a + b)[..|a + b| - 1] == a + front;
    }
  }

  lemma PredResultsOfOne(id: string, results: map<string, CastResult>)
    ensures PredResults([id], results) == if id in results then [results[id]] else []
  {
    assert [id][..0] == [];
  }

  lemma SplitLast<T>(a: seq<T>, b: seq<T>)
    requires b != []
    ensures a + b == (a + b[..|b| - 1]) + [b[|b| - 1]]
    ensures b == b[..|b| - 1] + [b[|b| - 1]]
  {
  }

  lemma PredecessorsAppend(nodes: seq<Node>, n: Node, id: string)
    ensures PredecessorList(nodes + [n], id) == PredecessorList(nodes, id) + Copies(n.id, multiset(n.successors)[id])
  {
    assert (nodes + [n])[..|nodes|] == nodes;
  }

  /** Predecessors are listed in the order of the nodes that name them. */
  lemma {:induction false} PredecessorsConcat(a: seq<Node>, b: seq<Node>, id: string)
    ensures PredecessorList(a + b, id) == PredecessorList(a, id) + PredecessorList(b, id)
  {
    if b == [] {
      assert a + b == a;
    } else {
      var front, last := b[..|b| - 1], b[|b| - 1];
      PredecessorsConcat(a, front, id);
      SplitLast(a, b);
      PredecessorsAppend(a + front, last, id);
      PredecessorsAppend(front, last, id);
      var copies := Copies(last.id, multiset(last.successors)[id]);
      Order.Regroup(PredecessorList(a, id), PredecessorList(front, id), copies);
    }
  }

  /** One node is listed as often as it names the successor. */
  lemma PredecessorsOfOne(n: Node, id: string)
    ensures |PredecessorList([n], id)| == multiset(n.successors)[id]
    ensures forall p :: p in PredecessorList([n], id) ==> p == n.id
  {
    assert [n][..0] == [];
  }
}
