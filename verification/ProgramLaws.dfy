/** Which programs compile and run, and in what order, told by the fields of their nodes. */
module ProgramLaws {
  import opened Order
  import opened Graph
  import opened Schema
  import opened TopologicalOrder
  import opened Validation
  import opened Programs

  ghost predicate HasId(nodes: seq<Node>, x: string) {
    exists n :: n in nodes && n.id == x
  }

  /** Every node once, each before its successors. */
  ghost predicate OrdersNodes(nodes: seq<Node>, o: seq<string>) {
    && NoDup(o)
    && (forall x :: x in o <==> HasId(nodes, x))
    && forall n, i, j :: n in nodes && 0 <= i < |o| && 0 <= j < |o| && o[i] == n.id && o[j] in n.successors ==> i < j
  }

  lemma KeysAreIds(nodes: seq<Node>, x: string)
    requires DistinctIds(nodes)
    ensures x in GraphOf(nodes) <==> HasId(nodes, x)
  {
    NodeTableLookup(nodes);
    if x in GraphOf(nodes) {
      assert NodeTable(nodes)[x] in nodes;
    }
  }

  lemma EdgesAreSuccessors(nodes: seq<Node>, n: Node, v: string)
    requires DistinctIds(nodes) && n in nodes
    ensures Edge(GraphOf(nodes), n.id, v) <==> v in n.successors
  {
    NodeTableLookup(nodes);
  }

  lemma OrdersExactly(nodes: seq<Node>, o: seq<string>)
    requires DistinctIds(nodes)
    ensures IsTopological(GraphOf(nodes), o) <==> OrdersNodes(nodes, o)
  {
    var g := GraphOf(nodes);
    forall x ensures x in g.Keys <==> HasId(nodes, x) {
      KeysAreIds(nodes, x);
    }
    if IsTopological(g, o) {
      forall x ensures x in o <==> x in g.Keys {
        assert x in o <==> x in Elems(o);
      }
      forall n, i, j | n in nodes && 0 <= i < |o| && 0 <= j < |o| && o[i] == n.id && o[j] in n.successors
        ensures i < j
      {
        EdgesAreSuccessors(nodes, n, o[j]);
        assert Edge(g, o[i], o[j]);
      }
    }
    if OrdersNodes(nodes, o) {
      assert Elems(o) == g.Keys;
      forall i, j | 0 <= i < |o| && 0 <= j < |o| && Edge(g, o[i], o[j]) ensures i < j {
        assert HasId(nodes, o[i]);
        var n :| n in nodes && n.id == o[i];
        EdgesAreSuccessors(nodes, n, o[j]);
      }
    }
  }

  /** Every successor is the id of a node. */
  ghost predicate AllSuccessorsExist(nodes: seq<Node>) {
    forall n, x :: n in nodes && x in n.successors ==> HasId(nodes, x)
  }

  lemma KnownExactly(nodes: seq<Node>)
    requires DistinctIds(nodes)
    ensures SuccessorsKnown(nodes) <==> AllSuccessorsExist(nodes)
  {
    forall x ensures x in NodeTable(nodes) <==> HasId(nodes, x) {
      KeysAreIds(nodes, x);
    }
  }

  lemma OrderedExactly(nodes: seq<Node>)
    requires DistinctIds(nodes) && AllSuccessorsExist(nodes)
    ensures Cyclic(GraphOf(nodes)) <==> forall o :: !OrdersNodes(nodes, o)
  {
    KnownExactly(nodes);
    KnownIsClosed(nodes);
    AcyclicExactlyOrdered(GraphOf(nodes));
    forall o ensures IsTopological(GraphOf(nodes), o) <==> OrdersNodes(nodes, o) {
      OrdersExactly(nodes, o);
    }
  }

  ghost predicate Faulty(nodes: seq<Node>) {
    exists n, d :: n in nodes && ErrorOf(n, d)
  }

  ghost predicate Suspicious(nodes: seq<Node>) {
    exists n, d :: n in nodes && WarningOf(n, d)
  }

  lemma FaultyExactly(nodes: seq<Node>)
    ensures Errors(nodes) != [] <==> Faulty(nodes)
  {
    if Errors(nodes) != [] {
      var d := Errors(nodes)[0];
      ErrorsExactly(nodes, d);
    }
    if Faulty(nodes) {
      var n, d :| n in nodes && ErrorOf(n, d);
      ErrorsExactly(nodes, d);
    }
  }

  lemma SuspiciousExactly(nodes: seq<Node>)
    ensures Warnings(nodes) != [] <==> Suspicious(nodes)
  {
    if Warnings(nodes) != [] {
      var d := Warnings(nodes)[0];
      WarningsExactly(nodes, d);
    }
    if Suspicious(nodes) {
      var n, d :| n in nodes && WarningOf(n, d);
      WarningsExactly(nodes, d);
    }
  }

  /** A program compiles exactly if no node has an error, every successor is a node, and the nodes
      can be put in order. */
  lemma CompilesExactly(nodes: seq<Node>)
    requires DistinctIds(nodes)
    ensures Compiles(nodes) <==>
      !Faulty(nodes) && AllSuccessorsExist(nodes) && exists o :: OrdersNodes(nodes, o)
  {
    FaultyExactly(nodes);
    KnownExactly(nodes);
    if AllSuccessorsExist(nodes) {
      OrderedExactly(nodes);
    }
  }

  /** A program is run exactly unless it is not compiled and does not compile, or warnings are
      denied and it has one, or a successor is missing, or its nodes cannot be put in order. */
  lemma RefusedExactly(program: Program, denyWarnings: bool)
    requires ValidProgram(program)
    ensures Refused(program, denyWarnings) <==>
      || (program.status != Compiled && Faulty(program.nodes))
      || (denyWarnings && Suspicious(program.nodes))
      || !AllSuccessorsExist(program.nodes)
      || forall o :: !OrdersNodes(program.nodes, o)
  {
    var nodes := program.nodes;
    FaultyExactly(nodes);
    SuspiciousExactly(nodes);
    KnownExactly(nodes);
    if AllSuccessorsExist(nodes) {
      OrderedExactly(nodes);
    }
  }

  /** Where the two orders first differ, `o` names the string that ends first or has the lesser
      character where the strings differ. */
  ghost predicate ComesFirst(o: seq<string>, other: seq<string>) {
    exists k, i: nat :: 0 <= k < |o| && k < |other| && o[..k] == other[..k] && PrecedesAt(o[k], other[k], i)
  }

  lemma ComesFirstExactly(o: seq<string>, other: seq<string>)
    ensures LexAtMost(o, other) <==> o == other || ComesFirst(o, other)
  {
    if LexAtMost(o, other) && o != other {
      var k :| FirstDifference(o, other, k) && Less(o[k], other[k]);
      LessExactly(o[k], other[k]);
    }
    if ComesFirst(o, other) {
      var k, i: nat :| 0 <= k < |o| && k < |other| && o[..k] == other[..k] && PrecedesAt(o[k], other[k], i);
      LessExactly(o[k], other[k]);
      LessIsIrreflexive(o[k]);
      assert FirstDifference(o, other, k);
    }
  }

  /** The order a program runs in comes first, character by character, of all orders of its nodes. */
  lemma LeastExactly(nodes: seq<Node>, o: seq<string>)
    requires DistinctIds(nodes)
    ensures LeastOrder(nodes, o) <==>
      OrdersNodes(nodes, o) && forall other :: OrdersNodes(nodes, other) ==> other == o || ComesFirst(o, other)
  {
    OrdersExactly(nodes, o);
    forall other ensures IsTopological(GraphOf(nodes), other) <==> OrdersNodes(nodes, other) {
      OrdersExactly(nodes, other);
    }
    forall other ensures LexAtMost(o, other) <==> other == o || ComesFirst(o, other) {
      ComesFirstExactly(o, other);
    }
  }
}
