/** The data types of vermyth/schema that the program engine and the policy code share. */
module Schema {
  import opened Wrappers

  datatype VerdictType = Coherent | Partial | Incoherent

  datatype DivergenceStatus = Stable | Drifting | Diverged

  /** ContradictionSeverity. */
  datatype Severity = NoContradiction | Soft | Hard

  datatype NodeType = Cast | FluidCast | AutoCast | Gate | Merge

  datatype MergeStrategy = FirstCoherent | BestResonance | All

  datatype EffectType = Read | Write | Network | Exec | Compute | Observe | NoEffect

  datatype RollbackStrategy = NoRollback | Compensate | UndoLog | CheckpointRestore

  datatype ProgramStatus = Draft | Compiled | Running | Completed | Failed

  /** A value a condition compares with. `Opaque` stands for a list or a dict. */
  datatype Value = Null | Bool(b: bool) | Num(n: real) | Str(s: string) | Opaque(tag: nat)

  datatype ConditionOp = Eq | Neq | Gt | Gte | Lt | Lte | Contains | Exists

  datatype ConditionExpr = ConditionExpr(op: ConditionOp, key: string, value: Value)

  /** A precondition or a postcondition; one without an expression always holds. */
  datatype Condition = Condition(predicateName: string, expr: Option<ConditionExpr>)

  datatype RetryPolicy = RetryPolicy(maxAttempts: int, backoffMs: int)

  /** A node of a semantic program. What it casts (aspects, vector, intent) is
      behind the casting oracle of module Execution. */
  datatype Node = Node(
    id: string,
    kind: NodeType,
    successors: seq<string>,
    gateCondition: Option<VerdictType>,
    mergeStrategy: Option<MergeStrategy>,
    preconditions: seq<Condition>,
    postconditions: seq<Condition>,
    effects: seq<EffectType>,
    retryPolicy: Option<RetryPolicy>,
    rollback: Option<RollbackStrategy>,
    timeoutMs: Option<int>)

  datatype Program = Program(status: ProgramStatus, nodes: seq<Node>)

  datatype Lineage = Lineage(parentCastId: string, depth: nat, branchId: string, divergence: seq<real>)

  /** A cast result, reduced to what the program engine reads. */
  datatype CastResult = CastResult(
    castId: string, verdict: VerdictType, adjusted: real, vector: seq<real>, lineage: Option<Lineage>)

  /** The program model's validator: node ids are distinct. */
  ghost predicate DistinctIds(nodes: seq<Node>) {
    forall i, j :: 0 <= i < j < |nodes| ==> nodes[i].id != nodes[j].id
  }

  /** The dict `{n.node_id: n for n in nodes}`. */
  function NodeTable(nodes: seq<Node>): (table: map<string, Node>)
    ensures forall id :: id in table ==> table[id].id == id && table[id] in nodes
    ensures forall n :: n in nodes ==> n.id in table
  {
    if nodes == [] then map[]
    else
      var last := nodes[|nodes| - 1];
      assert nodes == nodes[..|nodes| - 1] + [last];
      NodeTable(nodes[..|nodes| - 1])[last.id := last]
  }

  lemma {:induction false} NodeTableLookup(nodes: seq<Node>)
    requires DistinctIds(nodes)
    ensures |NodeTable(nodes)| == |nodes|
    ensures forall n :: n in nodes ==> NodeTable(nodes)[n.id] == n
  {
    if nodes != [] {
      var front, last := nodes[..|nodes| - 1], nodes[|nodes| - 1];
      NodeTableLookup(front);
      forall n | n in nodes ensures NodeTable(nodes)[n.id] == n {
        if n in front {
          assert n.id != last.id;
        }
      }
      if last.id in NodeTable(front) {
        assert false;
      }
    }
  }
}
