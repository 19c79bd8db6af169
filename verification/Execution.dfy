/** execute_program of vermyth/engine/operations/programs.py: what one node does,
    the run over an order, and the loops that carry it out. */
module Execution {
  import opened Wrappers
  import opened Schema
  import opened Conditions
  import opened Vectors

  /** One attempt to cast a node, as the casting engine answers it. */
  datatype Attempt = Returns(result: CastResult) | Raises(message: string)

  /** The casting engine: node id and attempt number (from 1) to an answer. */
  type Oracle = (string, nat) -> Attempt

  /** What a run reads: the node dict, the predecessor dict, the engine, the branch. */
  datatype Setup = Setup(
    nodes: map<string, Node>, predecessors: map<string, seq<string>>, attempt: Oracle, branchId: string)

  datatype ReceiptStatus = SkippedReceipt | OkReceipt | FailedReceipt | RolledBackReceipt

  datatype Receipt = Receipt(
    nodeId: string, status: ReceiptStatus, pre: seq<(string, bool)>, post: seq<(string, bool)>,
    retries: nat, error: Option<string>)

  /** The schema's constraint on retry policies. */
  ghost predicate ValidNode(n: Node) {
    n.retryPolicy.Some? ==> n.retryPolicy.value.maxAttempts >= 1
  }

  function MaxAttempts(n: Node): nat
    requires ValidNode(n)
    ensures MaxAttempts(n) >= 1
  {
    if n.retryPolicy.Some? then n.retryPolicy.value.maxAttempts else 1
  }

  /** Nothing is better than entry `i`, and everything before it is worse. */
  ghost predicate IsFirstBest(results: seq<CastResult>, i: int) {
    && 0 <= i < |results|
    && (forall j :: 0 <= j < i ==> results[j].adjusted < results[i].adjusted)
    && (forall j :: i <= j < |results| ==> results[j].adjusted <= results[i].adjusted)
  }

  /** The index `max(results, key=adjusted)` picks. */
  function BestIndex(results: seq<CastResult>): (i: nat)
    requires results != []
    ensures IsFirstBest(results, i)
  {
    if |results| == 1 then 0
    else
      var last := |results| - 1;
      var i := BestIndex(results[..last]);
      assert forall j :: 0 <= j < last ==> results[..last][j] == results[j];
      if results[last].adjusted > results[i].adjusted then last else i
  }

  function Best(results: seq<CastResult>): CastResult
    requires results != []
  {
    results[BestIndex(results)]
  }

  /** The first coherent result, or the first of all. */
  function FirstCoherentOf(results: seq<CastResult>): (r: CastResult)
    requires results != []
    ensures r in results
    ensures r.verdict == Coherent || (r == results[0] && forall x :: x in results ==> x.verdict != Coherent)
  {
    if results[0].verdict == Coherent || |results| == 1 then results[0]
    else
      var rest := FirstCoherentOf(results[1..]);
      assert results == [results[0]] + results[1..];
      if rest.verdict == Coherent then rest else results[0]
  }

  /** _cast_result_with_lineage: the child of `parent` on the run's branch. */
  function WithLineage(base: CastResult, parent: CastResult, branchId: string): CastResult {
    var depth := if parent.lineage.Some? then parent.lineage.value.depth + 1 else 1;
    base.(lineage := Some(Lineage(parent.castId, depth, branchId, Difference(base.vector, parent.vector))))
  }

  function PreContext(predResults: seq<CastResult>): map<string, Value> {
    map["pred_count" := Num(|predResults| as real), "has_parent" := Bool(predResults != [])]
  }

  function VerdictName(v: VerdictType): string {
    match v
    case Coherent => "COHERENT"
    case Partial => "PARTIAL"
    case Incoherent => "INCOHERENT"
  }

  function PostContext(result: CastResult): map<string, Value> {
    map["adjusted_resonance" := Num(result.adjusted), "verdict" := Str(VerdictName(result.verdict))]
  }

  /** How the retry loop of a cast node ends. */
  datatype Tries = Gave(result: CastResult, retries: nat) | GaveUp(retries: nat, error: string)

  /** The retry loop from attempt `k` on, `n` attempts in all. */
  function Try(attempt: Oracle, id: string, k: nat, n: nat): Tries
    requires 1 <= k <= n
    decreases n - k
  {
    match attempt(id, k)
    case Returns(r) => Gave(r, k - 1)
    case Raises(message) => if k == n then GaveUp(n - 1, message) else Try(attempt, id, k + 1, n)
  }

  /** What visiting a node does. */
  datatype Visit =
    | Aborted                                                            // a condition raised TypeError
    | PreconditionFailed(pre: seq<(string, bool)>)
    | GateOpen(pre: seq<(string, bool)>)
    | GateClosed(pre: seq<(string, bool)>)
    | NothingToMerge(pre: seq<(string, bool)>)
    | Merged(result: CastResult, pre: seq<(string, bool)>)
    | CastDone(result: CastResult, pre: seq<(string, bool)>, post: seq<(string, bool)>, retries: nat)
    | CastFailed(pre: seq<(string, bool)>, retries: nat, error: string)

  function VisitNode(node: Node, predResults: seq<CastResult>, attempt: Oracle, branchId: string): Visit
    requires ValidNode(node)
  {
    match EvaluateAll(node.preconditions, PreContext(predResults))
    case None => Aborted
    case Some(pre) =>
      if !AllHold(pre) then PreconditionFailed(pre)
      else if node.kind == Gate then
        if exists r <- predResults :: Some(r.verdict) == node.gateCondition then GateOpen(pre) else GateClosed(pre)
      else if node.kind == Merge then
        if predResults == [] then NothingToMerge(pre)
        else if node.mergeStrategy == Some(FirstCoherent) then Merged(FirstCoherentOf(predResults), pre)
        else Merged(Best(predResults), pre)
      else
        match Try(attempt, node.id, 1, MaxAttempts(node))
        case GaveUp(retries, error) => CastFailed(pre, retries, if error == "" then "execution_failed" else error)
        case Gave(base, retries) =>
          var result := if predResults == [] then base else WithLineage(base, Best(predResults), branchId);
          match EvaluateAll(node.postconditions, PostContext(result))
          case None => Aborted
          case Some(post) => CastDone(result, pre, post, retries)
  }

  /** The receipts a visit leaves, rollback aside. */
  function ReceiptsOf(id: string, visit: Visit): seq<Receipt> {
    match visit
    case Aborted => []
    case PreconditionFailed(pre) => [Receipt(id, SkippedReceipt, pre, [], 0, Some("precondition_failed"))]
    case GateOpen(pre) => [Receipt(id, OkReceipt, pre, [], 0, None)]
    case GateClosed(pre) => [Receipt(id, SkippedReceipt, pre, [], 0, None)]
    case NothingToMerge(_) => []
    case Merged(_, pre) => [Receipt(id, OkReceipt, pre, [], 0, None)]
    case CastDone(_, pre, post, retries) => [Receipt(id, OkReceipt, pre, post, retries, None)]
    case CastFailed(pre, retries, error) => [Receipt(id, FailedReceipt, pre, [], retries, Some(error))]
  }

  function ResultOf(visit: Visit): Option<CastResult> {
    match visit
    case Merged(r, _) => Some(r)
    case CastDone(r, _, _, _) => Some(r)
    case _ => None
  }

  predicate ClosesPath(visit: Visit) {
    visit.PreconditionFailed? || visit.GateClosed?
  }

  function RollbackLabel(r: Option<RollbackStrategy>): string {
    match r
    case None => "rollback:none"
    case Some(NoRollback) => "rollback:none"
    case Some(Compensate) => "rollback:compensate"
    case Some(UndoLog) => "rollback:undo_log"
    case Some(CheckpointRestore) => "rollback:checkpoint_restore"
  }

  /** `for prev in reversed(queue)`: one receipt per completed cast, last first. */
  function Rollback(queue: seq<Node>): seq<Receipt> {
    if queue == [] then []
    else
      var last := queue[|queue| - 1];
      [Receipt(last.id, RolledBackReceipt, [], [], 0, Some(RollbackLabel(last.rollback)))]
        + Rollback(queue[..|queue| - 1])
  }

  datatype Halt = Going | FailedAt(id: string) | AbortedAt(id: string)

  /** The local variables of the main loop. */
  datatype RunState = RunState(
    blocked: set<string>, results: map<string, CastResult>, receipts: seq<Receipt>, queue: seq<Node>, halt: Halt)

  const Initial := RunState({}, map[], [], [], Going)

  /** `[results_by_node[p] for p in predecessors if p in results_by_node]`. */
  function PredResults(predecessors: seq<string>, results: map<string, CastResult>): seq<CastResult> {
    if predecessors == [] then []
    else
      var last := predecessors[|predecessors| - 1];
      PredResults(predecessors[..|predecessors| - 1], results) + if last in results then [results[last]] else []
  }

  ghost predicate ValidSetup(setup: Setup) {
    && setup.predecessors.Keys == setup.nodes.Keys
    && forall id :: id in setup.nodes ==> setup.nodes[id].id == id && ValidNode(setup.nodes[id])
  }

  function Apply(s: RunState, node: Node, visit: Visit): RunState {
    var receipts := s.receipts + ReceiptsOf(node.id, visit);
    match visit
    case Aborted => s.(halt := AbortedAt(node.id))
    case CastFailed(_, _, _) => s.(receipts := receipts + Rollback(s.queue), halt := FailedAt(node.id))
    case PreconditionFailed(_) => s.(blocked := s.blocked + (set x | x in node.successors), receipts := receipts)
    case GateClosed(_) => s.(blocked := s.blocked + (set x | x in node.successors), receipts := receipts)
    case GateOpen(_) => s.(receipts := receipts)
    case NothingToMerge(_) => s
    case Merged(r, _) => s.(results := s.results[node.id := r], receipts := receipts)
    case CastDone(r, _, _, _) => s.(results := s.results[node.id := r], receipts := receipts, queue := s.queue + [node])
  }

  function VisitIn(setup: Setup, s: RunState, id: string): Visit
    requires ValidSetup(setup) && id in setup.nodes
  {
    VisitNode(setup.nodes[id], PredResults(setup.predecessors[id], s.results), setup.attempt, setup.branchId)
  }

  function Step(setup: Setup, s: RunState, id: string): RunState
    requires ValidSetup(setup) && id in setup.nodes
  {
    if s.halt != Going || id in s.blocked then s
    else Apply(s, setup.nodes[id], VisitIn(setup, s, id))
  }

  /** The state after visiting the nodes of `order` in turn. */
  function Run(setup: Setup, order: seq<string>): RunState
    requires ValidSetup(setup) && forall id :: id in order ==> id in setup.nodes
  {
    if order == [] then Initial
    else Step(setup, Run(setup, order[..|order| - 1]), order[|order| - 1])
  }

  lemma {:induction false} HaltedStays(setup: Setup, order: seq<string>, i: nat)
    requires ValidSetup(setup) && forall id :: id in order ==> id in setup.nodes
    requires i <= |order| && Run(setup, order[..i]).halt != Going
    ensures Run(setup, order) == Run(setup, order[..i])
    decreases |order| - i
  {
    if i == |order| {
      assert order[..i] == order;
    } else {
      assert order[..i + 1][..i] == order[..i];
      HaltedStays(setup, order, i + 1);
    }
  }

  /** The retry loop of a cast node. */
  method TryCast(attempt: Oracle, id: string, attempts: nat) returns (r: Tries)
    requires attempts >= 1
    ensures r == Try(attempt, id, 1, attempts)
  {
    var runError := "";
    for k := 1 to attempts + 1
      invariant k <= attempts ==> Try(attempt, id, 1, attempts) == Try(attempt, id, k, attempts)
      invariant k == attempts + 1 ==> Try(attempt, id, 1, attempts) == GaveUp(attempts - 1, runError)
    {
      match attempt(id, k) {
        case Returns(result) => return Gave(result, k - 1);
        case Raises(message) => runError := message;
      }
    }
    return GaveUp(attempts - 1, runError);
  }

  method CollectResults(predecessors: seq<string>, results: map<string, CastResult>) returns (r: seq<CastResult>)
    ensures r == PredResults(predecessors, results)
  {
    r := [];
    for i := 0 to |predecessors|
      invariant r == PredResults(predecessors[..i], results)
    {
      assert predecessors[..i + 1][..i] == predecessors[..i];
      if predecessors[i] in results {
        r := r + [results[predecessors[i]]];
      }
    }
    assert predecessors[..|predecessors|] == predecessors;
  }

  method RollBack(queue: seq<Node>) returns (receipts: seq<Receipt>)
    ensures receipts == Rollback(queue)
  {
    receipts := [];
    var i := |queue|;
    assert queue[..i] == queue;
    while i > 0
      invariant i <= |queue|
      invariant Rollback(queue) == receipts + Rollback(queue[..i])
    {
      i := i - 1;
      assert queue[..i + 1][..i] == queue[..i];
      var prev := queue[i];
      receipts := receipts + [Receipt(prev.id, RolledBackReceipt, [], [], 0, Some(RollbackLabel(prev.rollback)))];
    }
  }

  /** The part of the main loop that visits a node: its preconditions, then by node type. */
  method Visiting(node: Node, predResults: seq<CastResult>, attempt: Oracle, branchId: string) returns (visit: Visit)
    requires ValidNode(node)
    ensures visit == VisitNode(node, predResults, attempt, branchId)
  {
    var checked := CheckConditions(node.preconditions, PreContext(predResults));
    if checked == None {
      return Aborted;
    }
    var pre := checked.value;
    if !AllHold(pre) {
      return PreconditionFailed(pre);
    }
    if node.kind == Gate {
      var open := exists r <- predResults :: Some(r.verdict) == node.gateCondition;
      return if open then GateOpen(pre) else GateClosed(pre);
    }
    if node.kind == Merge {
      if predResults == [] {
        return NothingToMerge(pre);
      }
      return Merged(
        if node.mergeStrategy == Some(FirstCoherent) then FirstCoherentOf(predResults) else Best(predResults), pre);
    }
    var tries := TryCast(attempt, node.id, MaxAttempts(node));
    if tries.GaveUp? {
      return CastFailed(pre, tries.retries, if tries.error == "" then "execution_failed" else tries.error);
    }
    var result := if predResults == [] then tries.result else WithLineage(tries.result, Best(predResults), branchId);
    var post := CheckConditions(node.postconditions, PostContext(result));
    return if post == None then Aborted else CastDone(result, pre, post.value, tries.retries);
  }

  /** The part of the main loop that updates its variables after a visit. */
  method Record(node: Node, visit: Visit, blocked0: set<string>, results0: map<string, CastResult>,
                receipts0: seq<Receipt>, queue0: seq<Node>)
    returns (blocked: set<string>, results: map<string, CastResult>, receipts: seq<Receipt>, queue: seq<Node>,
             halt: Halt)
    ensures RunState(blocked, results, receipts, queue, halt)
         == Apply(RunState(blocked0, results0, receipts0, queue0, Going), node, visit)
  {
    blocked, results, receipts, queue, halt := blocked0, results0, receipts0, queue0, Going;
    match visit {
      case Aborted =>
        halt := AbortedAt(node.id);
      case PreconditionFailed(pre) =>
        blocked := blocked + (set x | x in node.successors);
        receipts := receipts + [Receipt(node.id, SkippedReceipt, pre, [], 0, Some("precondition_failed"))];
      case GateOpen(pre) =>
        receipts := receipts + [Receipt(node.id, OkReceipt, pre, [], 0, None)];
      case GateClosed(pre) =>
        blocked := blocked + (set x | x in node.successors);
        receipts := receipts + [Receipt(node.id, SkippedReceipt, pre, [], 0, None)];
      case NothingToMerge(_) =>
      case Merged(result, pre) =>
        results := results[node.id := result];
        receipts := receipts + [Receipt(node.id, OkReceipt, pre, [], 0, None)];
      case CastDone(result, pre, post, retries) =>
        results := results[node.id := result];
        queue := queue + [node];
        receipts := receipts + [Receipt(node.id, OkReceipt, pre, post, retries, None)];
      case CastFailed(pre, retries, error) =>
        receipts := receipts + [Receipt(node.id, FailedReceipt, pre, [], retries, Some(error))];
        var undone := RollBack(queue);
        receipts := receipts + undone;
        halt := FailedAt(node.id);
    }
  }

  /** The main loop: mutates the blocked set, the results, the receipts and the
      rollback queue node by node, and stops at the first failure. */
  method RunLoop(setup: Setup, order: seq<string>)
    returns (blocked: set<string>, results: map<string, CastResult>, receipts: seq<Receipt>, halt: Halt)
    requires ValidSetup(setup) && forall id :: id in order ==> id in setup.nodes
    ensures var end := Run(setup, order);
      blocked == end.blocked && results == end.results && receipts == end.receipts && halt == end.halt
  {
    var queue: seq<Node> := [];
    blocked, results, receipts, halt := {}, map[], [], Going;
    for i := 0 to |order|
      invariant Run(setup, order[..i]) == RunState(blocked, results, receipts, queue, Going)
      invariant halt == Going
    {
      var id := order[i];
      assert order[..i + 1][..i] == order[..i];
      if id in blocked {
        continue;
      }
      var predResults := CollectResults(setup.predecessors[id], results);
      var visit := Visiting(setup.nodes[id], predResults, setup.attempt, setup.branchId);
      blocked, results, receipts, queue, halt := Record(setup.nodes[id], visit, blocked, results, receipts, queue);
      if halt != Going {
        HaltedStays(setup, order, i + 1);
        return;
      }
    }
    assert order[..|order|] == order;
  }
}
