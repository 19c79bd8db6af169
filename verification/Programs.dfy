/** compile_program and execute_program of vermyth/engine/operations/programs.py. */
module Programs {
  import opened Wrappers
  import opened Graph
  import opened Schema
  import opened TopologicalOrder
  import opened Execution
  import opened Validation
  import OI = OrderIndependence

  /** What the program model's validators guarantee. */
  ghost predicate ValidProgram(p: Program) {
    DistinctIds(p.nodes) && forall n :: n in p.nodes ==> ValidNode(n)
  }

  ghost predicate SuccessorsKnown(nodes: seq<Node>) {
    forall n, x :: n in nodes && x in n.successors ==> x in NodeTable(nodes)
  }

  ghost function GraphOf(nodes: seq<Node>): Digraph {
    Successors(NodeTable(nodes))
  }

  /** What a program needs to compile. */
  ghost predicate Compiles(nodes: seq<Node>) {
    Errors(nodes) == [] && SuccessorsKnown(nodes) && !Cyclic(GraphOf(nodes))
  }

  lemma KnownIsClosed(nodes: seq<Node>)
    requires DistinctIds(nodes)
    ensures SuccessorsKnown(nodes) <==> Closed(GraphOf(nodes))
  {
    var table := NodeTable(nodes);
    NodeTableLookup(nodes);
    if Closed(GraphOf(nodes)) {
      forall n, x | n in nodes && x in n.successors ensures x in table {
        assert Edge(GraphOf(nodes), n.id, x);
      }
    }
    if SuccessorsKnown(nodes) {
      forall u, v | Edge(GraphOf(nodes), u, v) ensures v in table {
        assert table[u] in nodes;
      }
    }
  }

  ghost function PredecessorTable(nodes: seq<Node>): map<string, seq<string>> {
    map id | id in NodeTable(nodes) :: PredecessorList(nodes, id)
  }

  /** The list of `id`, after the nodes of `prefix` were scanned. */
  ghost predicate ScannedAt(table: map<string, seq<string>>, prefix: seq<Node>, id: string) {
    id in table && table[id] == PredecessorList(prefix, id)
  }

  /** The list of `id`, after the first `j` successors of `node` were scanned. */
  ghost predicate AddedAt(table: map<string, seq<string>>, lists: map<string, seq<string>>, node: Node, j: nat,
                          id: string)
  {
    && j <= |node.successors|
    && id in table && id in lists
    && lists[id] == table[id] + Copies(node.id, multiset(node.successors[..j])[id])
  }

  lemma AppendOne(table: map<string, seq<string>>, lists: map<string, seq<string>>, node: Node, j: nat, id: string)
    requires j < |node.successors| && node.successors[j] in lists
    requires AddedAt(table, lists, node, j, id)
    ensures AddedAt(table, lists[node.successors[j] := lists[node.successors[j]] + [node.id]], node, j + 1, id)
  {
    var succ := node.successors[j];
    assert node.successors[..j + 1] == node.successors[..j] + [succ];
    var n := multiset(node.successors[..j])[id];
    assert multiset(node.successors[..j + 1])[id] == if id == succ then n + 1 else n;
    if id == succ {
      assert Copies(node.id, n + 1) == Copies(node.id, n) + [node.id];
      assert table[id] + Copies(node.id, n) + [node.id] == table[id] + Copies(node.id, n + 1);
    }
  }

  ghost predicate AllAdded(table: map<string, seq<string>>, lists: map<string, seq<string>>, node: Node, j: nat) {
    && lists.Keys == table.Keys
    && forall id {:trigger AddedAt(table, lists, node, j, id)} :: id in table ==> AddedAt(table, lists, node, j, id)
  }

  lemma AllAppended(table: map<string, seq<string>>, lists: map<string, seq<string>>, node: Node, j: nat)
    requires j < |node.successors| && node.successors[j] in lists && AllAdded(table, lists, node, j)
    ensures AllAdded(table, lists[node.successors[j] := lists[node.successors[j]] + [node.id]], node, j + 1)
  {
    var lists' := lists[node.successors[j] := lists[node.successors[j]] + [node.id]];
    forall id | id in table ensures AddedAt(table, lists', node, j + 1, id) {
      assert AddedAt(table, lists, node, j, id);
      AppendOne(table, lists, node, j, id);
    }
  }

  /** Appends `node` to the predecessor list of each of its listed successors. */
  method AddPredecessor(table: map<string, seq<string>>, node: Node)
    returns (r: Result<map<string, seq<string>>, string>)
    ensures r.Success? <==> KnownAt(table.Keys, node)
    ensures r.Success? ==> AllAdded(table, r.value, node, |node.successors|)
  {
    var lists := table;
    for j := 0 to |node.successors|
      invariant forall i :: 0 <= i < j ==> node.successors[i] in table
      invariant AllAdded(table, lists, node, j)
    {
      var succ := node.successors[j];
      if succ !in lists {
        return Failure("references unknown successor");
      }
      AllAppended(table, lists, node, j);
      lists := lists[succ := lists[succ] + [node.id]];
    }
    return Success(lists);
  }

  ghost predicate AllScanned(names: map<string, Node>, table: map<string, seq<string>>, prefix: seq<Node>) {
    && table.Keys == names.Keys
    && forall id {:trigger ScannedAt(table, prefix, id)} :: id in names ==> ScannedAt(table, prefix, id)
  }

  lemma ScanNode(names: map<string, Node>, table: map<string, seq<string>>, lists: map<string, seq<string>>,
                 nodes: seq<Node>, i: nat)
    requires i < |nodes| && AllScanned(names, table, nodes[..i])
    requires AllAdded(table, lists, nodes[i], |nodes[i].successors|)
    ensures AllScanned(names, lists, nodes[..i + 1])
  {
    assert nodes[..i + 1][..i] == nodes[..i];
    assert nodes[i].successors[..|nodes[i].successors|] == nodes[i].successors;
    forall id | id in names ensures ScannedAt(lists, nodes[..i + 1], id) {
      assert ScannedAt(table, nodes[..i], id);
      assert AddedAt(table, lists, nodes[i], |nodes[i].successors|, id);
    }
  }

  lemma ScannedAll(nodes: seq<Node>, table: map<string, seq<string>>)
    requires AllScanned(NodeTable(nodes), table, nodes)
    ensures table == PredecessorTable(nodes)
  {
    forall id | id in NodeTable(nodes) ensures table[id] == PredecessorList(nodes, id) {
      assert ScannedAt(table, nodes, id);
    }
  }

  ghost predicate KnownAt(names: set<string>, n: Node) {
    forall x :: x in n.successors ==> x in names
  }

  lemma UnknownSuccessor(nodes: seq<Node>, i: nat)
    requires i < |nodes| && !KnownAt(NodeTable(nodes).Keys, nodes[i])
    ensures !SuccessorsKnown(nodes)
  {
    assert nodes[i] in nodes;
  }

  lemma AllKnown(nodes: seq<Node>)
    requires forall k {:trigger KnownAt(NodeTable(nodes).Keys, nodes[k])} :: 0 <= k < |nodes| ==>
      KnownAt(NodeTable(nodes).Keys, nodes[k])
    ensures SuccessorsKnown(nodes)
  {
    forall n, x | n in nodes && x in n.successors ensures x in NodeTable(nodes) {
      var k :| 0 <= k < |nodes| && nodes[k] == n;
      assert KnownAt(NodeTable(nodes).Keys, nodes[k]);
    }
  }

  /** The predecessor dict; fails on an unknown successor. */
  method BuildPredecessors(nodes: seq<Node>) returns (r: Result<map<string, seq<string>>, string>)
    ensures r.Success? <==> SuccessorsKnown(nodes)
    ensures r.Success? ==> r.value == PredecessorTable(nodes)
  {
    var names := NodeTable(nodes);
    var table: map<string, seq<string>> := map id | id in names :: [];
    for i := 0 to |nodes|
      invariant AllScanned(names, table, nodes[..i])
      invariant forall k {:trigger KnownAt(names.Keys, nodes[k])} :: 0 <= k < i ==> KnownAt(names.Keys, nodes[k])
    {
      var added := AddPredecessor(table, nodes[i]);
      if added.Failure? {
        UnknownSuccessor(nodes, i);
        return Failure(added.error);
      }
      ScanNode(names, table, added.value, nodes, i);
      table := added.value;
    }
    assert nodes[..|nodes|] == nodes;
    ScannedAll(nodes, table);
    AllKnown(nodes);
    return Success(table);
  }

  /** Compiles exactly the programs without errors, unknown successors or cycles. */
  method CompileProgram(program: Program) returns (r: Result<Program, string>)
    requires ValidProgram(program)
    ensures r.Success? <==> Compiles(program.nodes)
    ensures r.Success? ==> r.value == Program(Compiled, program.nodes)
  {
    var report := ValidateProgram(program.nodes);
    if report.errors != [] {
      return Failure("program validation failed");
    }
    var predecessors := BuildPredecessors(program.nodes);
    KnownIsClosed(program.nodes);
    if predecessors.Failure? {
      return Failure(predecessors.error);
    }
    PredecessorListsMirror(program.nodes, predecessors.value);
    var order := TopologicalOrder.TopologicalOrder(Successors(NodeTable(program.nodes)), predecessors.value);
    if order.Failure? {
      return Failure(order.error);
    }
    return Success(program.(status := Compiled));
  }

  datatype ProgramExecution = ProgramExecution(
    status: ProgramStatus, nodeResults: map<string, string>, blocked: set<string>, receipts: seq<Receipt>)

  ghost function SetupOf(nodes: seq<Node>, attempt: Oracle, branchId: string): Setup {
    Setup(NodeTable(nodes), PredecessorTable(nodes), attempt, branchId)
  }

  lemma SetupIsValid(nodes: seq<Node>, attempt: Oracle, branchId: string)
    requires DistinctIds(nodes) && forall n :: n in nodes ==> ValidNode(n)
    ensures ValidSetup(SetupOf(nodes, attempt, branchId))
    ensures SuccessorsKnown(nodes) ==> OI.GraphSetup(SetupOf(nodes, attempt, branchId))
  {
    KnownIsClosed(nodes);
    PredecessorListsMirror(nodes, PredecessorTable(nodes));
  }

  /** Why execution refuses a program before it visits a node. */
  ghost predicate Refused(program: Program, denyWarnings: bool) {
    || (program.status != Compiled && !Compiles(program.nodes))
    || (denyWarnings && Warnings(program.nodes) != [])
    || !SuccessorsKnown(program.nodes)
    || Cyclic(GraphOf(program.nodes))
  }

  /** The least topological order of the program. */
  ghost predicate LeastOrder(nodes: seq<Node>, o: seq<string>) {
    && IsTopological(GraphOf(nodes), o)
    && forall other :: IsTopological(GraphOf(nodes), other) ==> LexAtMost(o, other)
  }

  /** Runs the program along its least topological order; `order` is that order. A
      program that is refused or whose conditions raise gives no execution. */
  method ExecuteProgram(program: Program, attempt: Oracle, branchId: string, denyWarnings: bool)
    returns (r: Result<ProgramExecution, string>, ghost order: seq<string>)
    requires ValidProgram(program)
    ensures ValidSetup(SetupOf(program.nodes, attempt, branchId))
    ensures Refused(program, denyWarnings) ==> r.Failure?
    ensures !Refused(program, denyWarnings) ==>
      && LeastOrder(program.nodes, order)
      && (forall id :: id in order ==> id in NodeTable(program.nodes))
      && var end := Run(SetupOf(program.nodes, attempt, branchId), order);
         && (r.Failure? <==> end.halt.AbortedAt?)
         && (r.Success? ==>
               && r.value.status == (if end.halt == Going then Completed else Failed)
               && r.value.nodeResults == (map id | id in end.results :: end.results[id].castId)
               && r.value.blocked == end.blocked
               && r.value.receipts == end.receipts)
  {
    order := [];
    SetupIsValid(program.nodes, attempt, branchId);
    KnownIsClosed(program.nodes);
    if program.status != Compiled {
      var compiled := CompileProgram(program);
      if compiled.Failure? {
        return Failure(compiled.error), order;
      }
    }
    var report := ValidateProgram(program.nodes);
    if report.warnings != [] && denyWarnings {
      return Failure("program validation warnings"), order;
    }
    var predecessors := BuildPredecessors(program.nodes);
    if predecessors.Failure? {
      return Failure(predecessors.error), order;
    }
    PredecessorListsMirror(program.nodes, predecessors.value);
    var sorted := TopologicalOrder.TopologicalOrder(Successors(NodeTable(program.nodes)), predecessors.value);
    if sorted.Failure? {
      return Failure(sorted.error), order;
    }
    order := sorted.value;
    var setup := Setup(NodeTable(program.nodes), predecessors.value, attempt, branchId);
    OI.OrderInNodes(setup, order);
    var blocked, results, receipts, halt := RunLoop(setup, sorted.value);
    if halt.AbortedAt? {
      return Failure("a condition raised"), order;
    }
    var status := if halt == Going then Completed else Failed;
    r := Success(ProgramExecution(status, map id | id in results :: results[id].castId, blocked, receipts));
  }
}
