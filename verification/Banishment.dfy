/** apply_banishment_to_program of vermyth/arcane/compiler.py, and what it leaves alone. */
module Banishment {
  import opened Wrappers
  import opened Schema
  import opened TopologicalOrder
  import opened Validation
  import opened Execution
  import opened Programs

  datatype BanishmentSpec = BanishmentSpec(
    defaultRollback: RollbackStrategy, strict: bool, quarantine: seq<EffectType>)

  predicate Quarantined(n: Node, ban: BanishmentSpec) {
    exists e <- n.effects :: e in ban.quarantine
  }

  function BanishNode(n: Node, ban: BanishmentSpec): Node {
    if Quarantined(n, ban) && LacksRollback(n) then n.(rollback := Some(ban.defaultRollback)) else n
  }

  /** The transformed program: same length, one node for each node. */
  function Banish(nodes: seq<Node>, ban: BanishmentSpec): (r: seq<Node>)
    ensures |r| == |nodes|
    ensures forall i :: 0 <= i < |r| ==> r[i] == if ban.strict then BanishNode(nodes[i], ban) else nodes[i]
  {
    if !ban.strict then nodes
    else seq(|nodes|, i requires 0 <= i < |nodes| => BanishNode(nodes[i], ban))
  }

  method ApplyBanishment(program: Program, ban: BanishmentSpec) returns (r: Program)
    ensures r == Program(program.status, Banish(program.nodes, ban))
  {
    if !ban.strict {
      return program;
    }
    var newNodes: seq<Node> := [];
    for i := 0 to |program.nodes|
      invariant |newNodes| == i
      invariant forall k :: 0 <= k < i ==> newNodes[k] == BanishNode(program.nodes[k], ban)
    {
      var node := program.nodes[i];
      var n := node;
      if node.effects != [] {
        var needs := exists e <- node.effects :: e in ban.quarantine;
        if needs && LacksRollback(node) {
          n := node.(rollback := Some(ban.defaultRollback));
        }
      }
      newNodes := newNodes + [n];
    }
    assert newNodes == Banish(program.nodes, ban);
    return program.(nodes := newNodes);
  }

  /** Node by node, banishment sets the default rollback exactly on the nodes without rollback that
      have a quarantined effect, and only if it is strict; nothing else changes. */
  lemma BanishedExactly(nodes: seq<Node>, ban: BanishmentSpec, i: nat)
    requires i < |nodes|
    ensures var n, n' := nodes[i], Banish(nodes, ban)[i];
      var applies := ban.strict && n.rollback in {None, Some(NoRollback)}
                     && exists e :: e in n.effects && e in ban.quarantine;
      n' == n.(rollback := if applies then Some(ban.defaultRollback) else n.rollback)
  {
  }

  lemma BanishPrefix(nodes: seq<Node>, ban: BanishmentSpec)
    requires nodes != []
    ensures Banish(nodes, ban)[..|nodes| - 1] == Banish(nodes[..|nodes| - 1], ban)
  {
  }

  /** Banishing twice is banishing once. */
  lemma BanishIsIdempotent(nodes: seq<Node>, ban: BanishmentSpec)
    ensures Banish(Banish(nodes, ban), ban) == Banish(nodes, ban)
  {
    forall i | 0 <= i < |nodes|
      ensures BanishNode(BanishNode(nodes[i], ban), ban) == BanishNode(nodes[i], ban)
    {
    }
  }

  lemma {:induction false} BanishKeepsErrors(nodes: seq<Node>, ban: BanishmentSpec)
    ensures Errors(Banish(nodes, ban)) == Errors(nodes)
  {
    if nodes != [] {
      BanishPrefix(nodes, ban);
      BanishKeepsErrors(nodes[..|nodes| - 1], ban);
    }
  }

  /** Warnings other than those about destructive effects, in order. */
  function OtherWarnings(ds: seq<Diagnostic>): seq<Diagnostic> {
    if ds == [] then []
    else
      var last := ds[|ds| - 1];
      OtherWarnings(ds[..|ds| - 1]) + if last.DestructiveWithoutRollback? then [] else [last]
  }

  lemma {:induction false} OtherWarningsOfSum(a: seq<Diagnostic>, b: seq<Diagnostic>)
    ensures OtherWarnings(a + b) == OtherWarnings(a) + OtherWarnings(b)
  {
    if b == [] {
      assert a + b == a;
    } else {
      assert (a + b)[..|a + b| - 1] == a + b[..|b| - 1];
      OtherWarningsOfSum(a, b[..|b| - 1]);
    }
  }

  lemma {:induction false} EffectWarningsAreDestructive(n: Node, effects: seq<EffectType>)
    ensures OtherWarnings(EffectWarnings(n, effects)) == []
  {
    if effects != [] {
      var last := effects[|effects| - 1];
      EffectWarningsAreDestructive(n, effects[..|effects| - 1]);
      OtherWarningsOfSum(EffectWarnings(n, effects[..|effects| - 1]),
                         When(WarnsAbout(n, last), DestructiveWithoutRollback(n.id, last)));
    }
  }

  lemma NodeKeepsOtherWarnings(n: Node, ban: BanishmentSpec)
    ensures OtherWarnings(NodeWarnings(BanishNode(n, ban))) == OtherWarnings(NodeWarnings(n))
  {
    OtherNodeWarnings(n);
    OtherNodeWarnings(BanishNode(n, ban));
  }

  lemma OtherNodeWarnings(n: Node)
    ensures OtherWarnings(NodeWarnings(n))
         == OtherWarnings(When(n.retryPolicy.Some? && n.retryPolicy.value.backoffMs > 600_000, LargeBackoff(n.id)))
            + OtherWarnings(When(|PredicateNames(n.postconditions)| < |n.postconditions|,
                                 DuplicatePostconditions(n.id)))
  {
    var backoff := When(n.retryPolicy.Some? && n.retryPolicy.value.backoffMs > 600_000, LargeBackoff(n.id));
    var dup := When(|PredicateNames(n.postconditions)| < |n.postconditions|, DuplicatePostconditions(n.id));
    OtherWarningsOfSum(backoff + EffectWarnings(n, n.effects), dup);
    OtherWarningsOfSum(backoff, EffectWarnings(n, n.effects));
    EffectWarningsAreDestructive(n, n.effects);
  }

  /** A change of one node that keeps the other warnings keeps them in a longer list. */
  lemma AppendedWarnings(a: seq<Diagnostic>, b: seq<Diagnostic>, x: seq<Diagnostic>, y: seq<Diagnostic>)
    requires OtherWarnings(a) == OtherWarnings(b) && OtherWarnings(x) == OtherWarnings(y)
    ensures OtherWarnings(a + x) == OtherWarnings(b + y)
  {
    OtherWarningsOfSum(a, x);
    OtherWarningsOfSum(b, y);
  }

  lemma {:induction false} BodyKeepsOtherWarnings(nodes: seq<Node>, ban: BanishmentSpec)
    requires ban.strict
    ensures OtherWarnings(BodyWarnings(Banish(nodes, ban))) == OtherWarnings(BodyWarnings(nodes))
  {
    if nodes != [] {
      var front, last := nodes[..|nodes| - 1], nodes[|nodes| - 1];
      BanishPrefix(nodes, ban);
      BodyKeepsOtherWarnings(front, ban);
      NodeKeepsOtherWarnings(last, ban);
      AppendedWarnings(BodyWarnings(Banish(front, ban)), BodyWarnings(front),
                       NodeWarnings(BanishNode(last, ban)), NodeWarnings(last));
    }
  }

  lemma {:induction false} BanishKeepsDeadEnds(nodes: seq<Node>, ban: BanishmentSpec)
    ensures DeadEnds(Banish(nodes, ban)) == DeadEnds(nodes)
  {
    if nodes != [] {
      BanishPrefix(nodes, ban);
      BanishKeepsDeadEnds(nodes[..|nodes| - 1], ban);
    }
  }

  /** Every other warning stays, in place. */
  lemma BanishKeepsOtherWarnings(nodes: seq<Node>, ban: BanishmentSpec)
    ensures OtherWarnings(Warnings(Banish(nodes, ban))) == OtherWarnings(Warnings(nodes))
  {
    if ban.strict {
      BodyKeepsOtherWarnings(nodes, ban);
      BanishKeepsDeadEnds(nodes, ban);
      AppendedWarnings(BodyWarnings(Banish(nodes, ban)), BodyWarnings(nodes), DeadEnds(nodes), DeadEnds(nodes));
    }
  }

  /** A warning about a destructive effect survives exactly on the nodes that had it and
      that banishment gives no rollback: it is lenient, its default is no rollback, or
      no effect of the node is quarantined. */
  lemma DestructiveAfterBanishment(nodes: seq<Node>, ban: BanishmentSpec, id: string, e: EffectType)
    ensures DestructiveWithoutRollback(id, e) in Warnings(Banish(nodes, ban))
       <==> exists n :: n in nodes && n.id == id && e in n.effects && WarnsAbout(n, e)
                        && (!ban.strict || ban.defaultRollback == NoRollback || !Quarantined(n, ban))
  {
    var banished := Banish(nodes, ban);
    DestructiveWarnings(banished, id, e);
    if n :| n in banished && n.id == id && e in n.effects && WarnsAbout(n, e) {
      var i :| 0 <= i < |nodes| && banished[i] == n;
      assert nodes[i] in nodes;
    }
    if n :| n in nodes && n.id == id && e in n.effects && WarnsAbout(n, e)
            && (!ban.strict || ban.defaultRollback == NoRollback || !Quarantined(n, ban)) {
      var i :| 0 <= i < |nodes| && nodes[i] == n;
      assert banished[i] in banished;
    }
  }

  /** Strict banishment that quarantines every destructive effect and whose default is a
      real rollback leaves no destructive effect without one. */
  lemma StrictBanishmentCovers(nodes: seq<Node>, ban: BanishmentSpec)
    requires ban.strict && ban.defaultRollback != NoRollback
    requires Write in ban.quarantine && Exec in ban.quarantine && Network in ban.quarantine
    ensures forall d :: d in Warnings(Banish(nodes, ban)) ==> !d.DestructiveWithoutRollback?
  {
    forall d | d in Warnings(Banish(nodes, ban)) ensures !d.DestructiveWithoutRollback? {
      if d.DestructiveWithoutRollback? {
        DestructiveAfterBanishment(nodes, ban, d.id, d.effect);
        assert false;
      }
    }
  }

  /** Looking a node up in the transformed program gives the transformed node. */
  lemma {:induction false} BanishedTable(nodes: seq<Node>, ban: BanishmentSpec)
    ensures NodeTable(Banish(nodes, ban)).Keys == NodeTable(nodes).Keys
    ensures forall id :: id in NodeTable(nodes) ==>
      NodeTable(Banish(nodes, ban))[id]
        == if ban.strict then BanishNode(NodeTable(nodes)[id], ban) else NodeTable(nodes)[id]
  {
    if nodes != [] {
      BanishPrefix(nodes, ban);
      BanishedTable(nodes[..|nodes| - 1], ban);
    }
  }

  lemma BanishKeepsIds(nodes: seq<Node>, ban: BanishmentSpec)
    ensures DistinctIds(nodes) <==> DistinctIds(Banish(nodes, ban))
  {
    var banished := Banish(nodes, ban);
    assert forall i :: 0 <= i < |nodes| ==> banished[i].id == nodes[i].id;
  }

  lemma BanishKeepsGraph(nodes: seq<Node>, ban: BanishmentSpec)
    ensures GraphOf(Banish(nodes, ban)) == GraphOf(nodes)
  {
    BanishedTable(nodes, ban);
    forall id | id in NodeTable(nodes)
      ensures NodeTable(Banish(nodes, ban))[id].successors == NodeTable(nodes)[id].successors
    {
    }
  }

  /** The transformed program has the same graph, so the same topological orders, and
      compiles exactly when the original does. */
  lemma BanishKeepsCompilation(nodes: seq<Node>, ban: BanishmentSpec)
    requires DistinctIds(nodes)
    ensures GraphOf(Banish(nodes, ban)) == GraphOf(nodes)
    ensures Compiles(Banish(nodes, ban)) <==> Compiles(nodes)
    ensures forall o :: LeastOrder(Banish(nodes, ban), o) <==> LeastOrder(nodes, o)
  {
    BanishKeepsErrors(nodes, ban);
    BanishKeepsGraph(nodes, ban);
    BanishKeepsIds(nodes, ban);
    KnownIsClosed(nodes);
    KnownIsClosed(Banish(nodes, ban));
  }

  lemma {:induction false} BanishKeepsPredecessors(nodes: seq<Node>, ban: BanishmentSpec, id: string)
    ensures PredecessorList(Banish(nodes, ban), id) == PredecessorList(nodes, id)
  {
    if nodes != [] {
      BanishPrefix(nodes, ban);
      BanishKeepsPredecessors(nodes[..|nodes| - 1], ban, id);
    }
  }

  // ---- Execution ----

  /** Receipts with the rollback labels taken off. */
  function Unlabelled(receipts: seq<Receipt>): seq<Receipt> {
    seq(|receipts|, i requires 0 <= i < |receipts| =>
      if receipts[i].status == RolledBackReceipt then receipts[i].(error := None) else receipts[i])
  }

  ghost predicate SameUpToRollback(a: Node, b: Node) {
    a.(rollback := None) == b.(rollback := None)
  }

  ghost predicate SameQueues(a: seq<Node>, b: seq<Node>) {
    |a| == |b| && forall i :: 0 <= i < |a| ==> SameUpToRollback(a[i], b[i])
  }

  /** Two run states that differ in rollback strategies and labels only. */
  ghost predicate SameStates(s: RunState, t: RunState) {
    && s.blocked == t.blocked && s.results == t.results && s.halt == t.halt
    && Unlabelled(s.receipts) == Unlabelled(t.receipts)
    && SameQueues(s.queue, t.queue)
  }

  lemma {:induction false} SameRollbacks(a: seq<Node>, b: seq<Node>)
    requires SameQueues(a, b)
    ensures Unlabelled(Rollback(a)) == Unlabelled(Rollback(b))
  {
    if a != [] {
      var i := |a| - 1;
      assert SameUpToRollback(a[i], b[i]);
      SameRollbacks(a[..i], b[..i]);
      assert a[i].id == a[i].(rollback := None).id;
      assert b[i].id == b[i].(rollback := None).id;
      UnlabelledSum([Rollback(a)[0]], Rollback(a[..i]));
      UnlabelledSum([Rollback(b)[0]], Rollback(b[..i]));
    }
  }

  lemma UnlabelledSum(a: seq<Receipt>, b: seq<Receipt>)
    ensures Unlabelled(a + b) == Unlabelled(a) + Unlabelled(b)
  {
  }

  lemma SameApplies(s: RunState, t: RunState, a: Node, b: Node, visit: Visit)
    requires SameStates(s, t) && SameUpToRollback(a, b)
    requires a.id == b.id && a.successors == b.successors
    ensures SameStates(Apply(s, a, visit), Apply(t, b, visit))
  {
    var added := ReceiptsOf(a.id, visit);
    SameRollbacks(s.queue, t.queue);
    UnlabelledSum(s.receipts, added);
    UnlabelledSum(t.receipts, added);
    UnlabelledSum(s.receipts + added, Rollback(s.queue));
    UnlabelledSum(t.receipts + added, Rollback(t.queue));
  }

  lemma {:induction false} SameRuns(s: Setup, t: Setup, o: seq<string>)
    requires ValidSetup(s) && ValidSetup(t) && s.nodes.Keys == t.nodes.Keys
    requires s.predecessors == t.predecessors && s.attempt == t.attempt && s.branchId == t.branchId
    requires forall id :: id in s.nodes ==> s.nodes[id] == t.nodes[id].(rollback := s.nodes[id].rollback)
    requires forall id :: id in o ==> id in s.nodes
    ensures SameStates(Run(s, o), Run(t, o))
  {
    if o != [] {
      var front, id := o[..|o| - 1], o[|o| - 1];
      SameRuns(s, t, front);
      assert s.nodes[id] == t.nodes[id].(rollback := s.nodes[id].rollback);
      if Run(s, front).halt == Going && id !in Run(s, front).blocked {
        var visit := VisitIn(s, Run(s, front), id);
        assert visit == VisitIn(t, Run(t, front), id);
        SameApplies(Run(s, front), Run(t, front), s.nodes[id], t.nodes[id], visit);
      }
    }
  }

  lemma BanishKeepsNodesValid(nodes: seq<Node>, ban: BanishmentSpec)
    requires forall n :: n in nodes ==> ValidNode(n)
    ensures forall n :: n in Banish(nodes, ban) ==> ValidNode(n)
  {
    var after := Banish(nodes, ban);
    forall n | n in after ensures ValidNode(n) {
      var i :| 0 <= i < |after| && after[i] == n;
      assert nodes[i] in nodes;
    }
  }

  lemma BanishKeepsPredecessorTable(nodes: seq<Node>, ban: BanishmentSpec)
    ensures PredecessorTable(Banish(nodes, ban)) == PredecessorTable(nodes)
  {
    BanishedTable(nodes, ban);
    forall id ensures PredecessorList(Banish(nodes, ban), id) == PredecessorList(nodes, id) {
      BanishKeepsPredecessors(nodes, ban, id);
    }
  }

  /** Both setups are valid. */
  lemma BanishedSetup(nodes: seq<Node>, ban: BanishmentSpec, attempt: Oracle, branchId: string)
    requires DistinctIds(nodes) && forall n :: n in nodes ==> ValidNode(n)
    ensures ValidSetup(SetupOf(nodes, attempt, branchId))
    ensures ValidSetup(SetupOf(Banish(nodes, ban), attempt, branchId))
  {
    BanishKeepsIds(nodes, ban);
    BanishKeepsNodesValid(nodes, ban);
    SetupIsValid(nodes, attempt, branchId);
    SetupIsValid(Banish(nodes, ban), attempt, branchId);
  }

  /** The node tables differ in rollback strategies only. */
  lemma BanishedNodes(nodes: seq<Node>, ban: BanishmentSpec)
    ensures NodeTable(Banish(nodes, ban)).Keys == NodeTable(nodes).Keys
    ensures forall id :: id in NodeTable(nodes) ==>
      NodeTable(Banish(nodes, ban))[id] == NodeTable(nodes)[id].(rollback := NodeTable(Banish(nodes, ban))[id].rollback)
  {
    BanishedTable(nodes, ban);
  }

  /** Banishment changes nothing an execution does except the rollback labels. */
  lemma BanishKeepsExecution(nodes: seq<Node>, ban: BanishmentSpec, attempt: Oracle, branchId: string, o: seq<string>)
    requires DistinctIds(nodes) && forall n :: n in nodes ==> ValidNode(n)
    requires forall id :: id in o ==> id in NodeTable(nodes)
    ensures ValidSetup(SetupOf(nodes, attempt, branchId))
    ensures ValidSetup(SetupOf(Banish(nodes, ban), attempt, branchId))
    ensures forall id :: id in o ==> id in NodeTable(Banish(nodes, ban))
    ensures var run := Run(SetupOf(nodes, attempt, branchId), o);
      var banished := Run(SetupOf(Banish(nodes, ban), attempt, branchId), o);
      && banished.halt == run.halt && banished.results == run.results && banished.blocked == run.blocked
      && Unlabelled(banished.receipts) == Unlabelled(run.receipts)
  {
    BanishedSetup(nodes, ban, attempt, branchId);
    BanishedNodes(nodes, ban);
    BanishKeepsPredecessorTable(nodes, ban);
    SameRuns(SetupOf(Banish(nodes, ban), attempt, branchId), SetupOf(nodes, attempt, branchId), o);
  }
}
