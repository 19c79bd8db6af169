/** validate_program of vermyth/engine/operations/program_validation.py. */
module Validation {
  import opened Wrappers
  import opened Order
  import opened Schema

  datatype Diagnostic =
    | TimeoutTooLong(id: string)
    | TooManyAttempts(id: string)
    | LargeBackoff(id: string)
    | DestructiveWithoutRollback(id: string, effect: EffectType)
    | DuplicatePostconditions(id: string)
    | DeadEndGate(id: string)

  predicate Destructive(e: EffectType) {
    e == Write || e == Exec || e == Network
  }

  predicate LacksRollback(n: Node) {
    n.rollback == None || n.rollback == Some(NoRollback)
  }

  function When(condition: bool, d: Diagnostic): seq<Diagnostic> {
    if condition then [d] else []
  }

  function NodeErrors(n: Node): seq<Diagnostic> {
    When(n.timeoutMs.Some? && n.timeoutMs.value > 3_600_000, TimeoutTooLong(n.id))
    + When(n.retryPolicy.Some? && n.retryPolicy.value.maxAttempts > 20, TooManyAttempts(n.id))
  }

  predicate WarnsAbout(n: Node, e: EffectType) {
    Destructive(e) && LacksRollback(n) && n.kind != Gate
  }

  function EffectWarnings(n: Node, effects: seq<EffectType>): seq<Diagnostic> {
    if effects == [] then []
    else
      var last := effects[|effects| - 1];
      EffectWarnings(n, effects[..|effects| - 1]) + When(WarnsAbout(n, last), DestructiveWithoutRollback(n.id, last))
  }

  function PredicateNames(conditions: seq<Condition>): set<string> {
    set c | c in conditions :: c.predicateName
  }

  function NodeWarnings(n: Node): seq<Diagnostic> {
    When(n.retryPolicy.Some? && n.retryPolicy.value.backoffMs > 600_000, LargeBackoff(n.id))
    + EffectWarnings(n, n.effects)
    + When(|PredicateNames(n.postconditions)| < |n.postconditions|, DuplicatePostconditions(n.id))
  }

  function DeadEnd(n: Node): seq<Diagnostic> {
    When(n.kind == Gate && n.successors == [], DeadEndGate(n.id))
  }

  function Errors(nodes: seq<Node>): seq<Diagnostic> {
    if nodes == [] then [] else Errors(nodes[..|nodes| - 1]) + NodeErrors(nodes[|nodes| - 1])
  }

  function BodyWarnings(nodes: seq<Node>): seq<Diagnostic> {
    if nodes == [] then [] else BodyWarnings(nodes[..|nodes| - 1]) + NodeWarnings(nodes[|nodes| - 1])
  }

  function DeadEnds(nodes: seq<Node>): seq<Diagnostic> {
    if nodes == [] then [] else DeadEnds(nodes[..|nodes| - 1]) + DeadEnd(nodes[|nodes| - 1])
  }

  function Warnings(nodes: seq<Node>): seq<Diagnostic> {
    BodyWarnings(nodes) + DeadEnds(nodes)
  }

  class ProgramValidationReport {
    var errors: seq<Diagnostic>
    var warnings: seq<Diagnostic>
    var ok: bool

    ghost predicate Valid()
      reads this
    {
      ok <==> errors == []
    }

    constructor ()
      ensures Valid() && errors == [] && warnings == []
    {
      errors, warnings, ok := [], [], true;
    }

    method AddError(d: Diagnostic)
      modifies this
      ensures Valid() && errors == old(errors) + [d] && warnings == old(warnings)
    {
      errors := errors + [d];
      ok := false;
    }

    method AddWarning(d: Diagnostic)
      requires Valid()
      modifies this`warnings
      ensures Valid() && warnings == old(warnings) + [d]
    {
      warnings := warnings + [d];
    }

    /** The loop over the effects of one node. */
    method CheckEffects(n: Node)
      requires Valid()
      modifies this`warnings
      ensures Valid() && warnings == old(warnings) + EffectWarnings(n, n.effects)
    {
      for i := 0 to |n.effects|
        invariant Valid()
        invariant warnings == old(warnings) + EffectWarnings(n, n.effects[..i])
      {
        assert n.effects[..i + 1][..i] == n.effects[..i];
        if Destructive(n.effects[i]) {
          if LacksRollback(n) && n.kind != Gate {
            AddWarning(DestructiveWithoutRollback(n.id, n.effects[i]));
          }
        }
      }
      assert n.effects[..|n.effects|] == n.effects;
    }

    /** The second loop over the program: gates that lead nowhere. */
    method CheckDeadEnds(nodes: seq<Node>)
      requires Valid()
      modifies this`warnings
      ensures Valid() && warnings == old(warnings) + DeadEnds(nodes)
    {
      for i := 0 to |nodes|
        invariant Valid() && warnings == old(warnings) + DeadEnds(nodes[..i])
      {
        assert nodes[..i + 1][..i] == nodes[..i];
        if nodes[i].kind == Gate && nodes[i].successors == [] {
          AddWarning(DeadEndGate(nodes[i].id));
        }
      }
      assert nodes[..|nodes|] == nodes;
    }

    /** The checks on one node, in the first loop over the program. */
    method CheckNode(n: Node)
      requires Valid()
      modifies this
      ensures Valid()
      ensures errors == old(errors) + NodeErrors(n)
      ensures warnings == old(warnings) + NodeWarnings(n)
    {
      if n.timeoutMs.Some? && n.timeoutMs.value > 3_600_000 {
        AddError(TimeoutTooLong(n.id));
      }
      if n.retryPolicy.Some? {
        if n.retryPolicy.value.maxAttempts > 20 {
          AddError(TooManyAttempts(n.id));
        }
        if n.retryPolicy.value.backoffMs > 600_000 {
          AddWarning(LargeBackoff(n.id));
        }
      }
      ghost var backoff := When(n.retryPolicy.Some? && n.retryPolicy.value.backoffMs > 600_000, LargeBackoff(n.id));
      assert warnings == old(warnings) + backoff;
      CheckEffects(n);
      if |PredicateNames(n.postconditions)| < |n.postconditions| {
        AddWarning(DuplicatePostconditions(n.id));
      }
      RegroupFour(old(warnings), backoff, EffectWarnings(n, n.effects),
              When(|PredicateNames(n.postconditions)| < |n.postconditions|, DuplicatePostconditions(n.id)));
    }
  }

  lemma RegroupFour(a: seq<Diagnostic>, b: seq<Diagnostic>, c: seq<Diagnostic>, d: seq<Diagnostic>)
    ensures a + b + c + d == a + (b + c + d)
    ensures a + b + c + [] == a + b + c
  {
  }

  method ValidateProgram(nodes: seq<Node>) returns (report: ProgramValidationReport)
    ensures fresh(report) && report.Valid()
    ensures report.errors == Errors(nodes) && report.warnings == Warnings(nodes)
  {
    report := new ProgramValidationReport();
    for i := 0 to |nodes|
      invariant fresh(report) && report.Valid()
      invariant report.errors == Errors(nodes[..i]) && report.warnings == BodyWarnings(nodes[..i])
    {
      assert nodes[..i + 1][..i] == nodes[..i];
      report.CheckNode(nodes[i]);
    }
    assert nodes[..|nodes|] == nodes;
    report.CheckDeadEnds(nodes);
  }

  lemma {:induction false} ErrorsCollect(nodes: seq<Node>, d: Diagnostic)
    ensures d in Errors(nodes) <==> exists n :: n in nodes && d in NodeErrors(n)
  {
    if nodes != [] {
      ErrorsCollect(nodes[..|nodes| - 1], d);
      assert nodes == nodes[..|nodes| - 1] + [nodes[|nodes| - 1]];
    }
  }

  lemma {:induction false} EffectWarningsCollect(n: Node, effects: seq<EffectType>, d: Diagnostic)
    ensures d in EffectWarnings(n, effects)
       <==> d.DestructiveWithoutRollback? && d.id == n.id && d.effect in effects && WarnsAbout(n, d.effect)
  {
    if effects != [] {
      EffectWarningsCollect(n, effects[..|effects| - 1], d);
      assert effects == effects[..|effects| - 1] + [effects[|effects| - 1]];
    }
  }

  /** A program is warned about a destructive effect exactly when some node that is no
      gate has that effect and no rollback strategy. */
  lemma {:induction false} DestructiveWarnings(nodes: seq<Node>, id: string, e: EffectType)
    ensures DestructiveWithoutRollback(id, e) in Warnings(nodes)
       <==> exists n :: n in nodes && n.id == id && e in n.effects && WarnsAbout(n, e)
  {
    if nodes != [] {
      var front, last := nodes[..|nodes| - 1], nodes[|nodes| - 1];
      var d := DestructiveWithoutRollback(id, e);
      DestructiveWarnings(front, id, e);
      EffectWarningsCollect(last, last.effects, d);
      assert nodes == front + [last];
      assert d in Warnings(nodes) <==> d in Warnings(front) || d in NodeWarnings(last);
    }
  }

  // ---- The diagnostics, from the nodes' fields ----

  ghost predicate ErrorOf(n: Node, d: Diagnostic) {
    || (d == TimeoutTooLong(n.id) && n.timeoutMs.Some? && n.timeoutMs.value > 3_600_000)
    || (d == TooManyAttempts(n.id) && n.retryPolicy.Some? && n.retryPolicy.value.maxAttempts > 20)
  }

  ghost predicate Repeats(conditions: seq<Condition>) {
    exists i, j :: 0 <= i < j < |conditions| && conditions[i].predicateName == conditions[j].predicateName
  }

  ghost predicate WarningOf(n: Node, d: Diagnostic) {
    || (d == LargeBackoff(n.id) && n.retryPolicy.Some? && n.retryPolicy.value.backoffMs > 600_000)
    || (d == DuplicatePostconditions(n.id) && Repeats(n.postconditions))
    || (d == DeadEndGate(n.id) && n.kind == Gate && |n.successors| == 0)
    || (exists e :: e in n.effects && d == DestructiveWithoutRollback(n.id, e) && e in {Write, Exec, Network}
                    && n.rollback in {None, Some(NoRollback)} && n.kind != Gate)
  }

  lemma RepeatsExactly(conditions: seq<Condition>)
    ensures |PredicateNames(conditions)| < |conditions| <==> Repeats(conditions)
  {
    var names := seq(|conditions|, i requires 0 <= i < |conditions| => conditions[i].predicateName);
    assert forall i :: 0 <= i < |names| ==> names[i] == conditions[i].predicateName;
    NamesAreElems(conditions, names);
    if Repeats(conditions) {
      FewerNames(names);
    } else {
      NoDupLength(names);
    }
  }

  lemma NamesAreElems(conditions: seq<Condition>, names: seq<string>)
    requires |names| == |conditions| && forall i :: 0 <= i < |names| ==> names[i] == conditions[i].predicateName
    ensures PredicateNames(conditions) == Elems(names)
  {
    forall x ensures x in PredicateNames(conditions) <==> x in Elems(names) {
      if x in PredicateNames(conditions) {
        var c :| c in conditions && c.predicateName == x;
        var i :| 0 <= i < |conditions| && conditions[i] == c;
        assert names[i] == x;
      }
      if x in names {
        var i :| 0 <= i < |names| && names[i] == x;
        assert conditions[i] in conditions;
      }
    }
  }

  lemma {:induction false} FewerNames(names: seq<string>)
    ensures |Elems(names)| <= |names|
    ensures !NoDup(names) ==> |Elems(names)| < |names|
  {
    if names != [] {
      var front, last := names[..|names| - 1], names[|names| - 1];
      FewerNames(front);
      assert names == front + [last];
      assert Elems(names) == Elems(front) + {last};
      if last in front {
        assert Elems(names) == Elems(front);
      } else if NoDup(front) {
        NoDupAppend(front, [last]);
      }
    }
  }

  /** The errors of a program, exactly: a timeout above an hour, more than 20 attempts. */
  lemma {:induction false} ErrorsExactly(nodes: seq<Node>, d: Diagnostic)
    ensures d in Errors(nodes) <==> exists n :: n in nodes && ErrorOf(n, d)
  {
    ErrorsCollect(nodes, d);
    forall n ensures d in NodeErrors(n) <==> ErrorOf(n, d) {}
  }

  lemma NodeWarningsExactly(n: Node, d: Diagnostic)
    ensures d in NodeWarnings(n) || d in DeadEnd(n) <==> WarningOf(n, d)
  {
    EffectWarningsCollect(n, n.effects, d);
    RepeatsExactly(n.postconditions);
  }

  /** The warnings of a program, exactly: a backoff above ten minutes, a destructive effect without
      rollback, postconditions of one name, a gate that leads nowhere. */
  lemma {:induction false} WarningsExactly(nodes: seq<Node>, d: Diagnostic)
    ensures d in Warnings(nodes) <==> exists n :: n in nodes && WarningOf(n, d)
  {
    WarningsCollect(nodes, d);
    forall n ensures d in NodeWarnings(n) || d in DeadEnd(n) <==> WarningOf(n, d) {
      NodeWarningsExactly(n, d);
    }
  }

  lemma {:induction false} WarningsCollect(nodes: seq<Node>, d: Diagnostic)
    ensures d in Warnings(nodes) <==> exists n :: n in nodes && (d in NodeWarnings(n) || d in DeadEnd(n))
  {
    if nodes != [] {
      var front, last := nodes[..|nodes| - 1], nodes[|nodes| - 1];
      WarningsCollect(front, d);
      assert nodes == front + [last];
      assert d in Warnings(nodes) <==> d in Warnings(front) || d in NodeWarnings(last) || d in DeadEnd(last);
    }
  }

  // ---- Their order ----

  lemma SplitLast(a: seq<Node>, b: seq<Node>)
    requires b != []
    ensures (a + b)[..|a + b| - 1] == a + b[..|b| - 1] && (a + b)[|a + b| - 1] == b[|b| - 1]
  {
  }

  /** The diagnostics of a node come before those of later nodes, but for dead ends, which come
      last. */
  lemma {:induction false} DiagnosticsConcat(a: seq<Node>, b: seq<Node>)
    ensures Errors(a + b) == Errors(a) + Errors(b)
    ensures BodyWarnings(a + b) == BodyWarnings(a) + BodyWarnings(b)
    ensures DeadEnds(a + b) == DeadEnds(a) + DeadEnds(b)
  {
    if b == [] {
      assert a + b == a;
    } else {
      var front, last := b[..|b| - 1], b[|b| - 1];
      SplitLast(a, b);
      DiagnosticsConcat(a, front);
      Regroup(Errors(a), Errors(front), NodeErrors(last));
      Regroup(BodyWarnings(a), BodyWarnings(front), NodeWarnings(last));
      Regroup(DeadEnds(a), DeadEnds(front), DeadEnd(last));
    }
  }

  /** A node's destructive effects are reported in their own order. */
  lemma {:induction false} EffectsConcat(n: Node, a: seq<EffectType>, b: seq<EffectType>)
    ensures EffectWarnings(n, a + b) == EffectWarnings(n, a) + EffectWarnings(n, b)
  {
    if b == [] {
      assert a + b == a;
    } else {
      var front, last := b[..|b| - 1], b[|b| - 1];
      EffectsConcat(n, a, front);
      assert (a + b)[..|a + b| - 1] == a + front;
      Regroup(EffectWarnings(n, a), EffectWarnings(n, front),
              When(WarnsAbout(n, last), DestructiveWithoutRollback(n.id, last)));
    }
  }

  /** Place of a warning among those of its node. */
  ghost function Place(d: Diagnostic): nat {
    match d
    case TimeoutTooLong(_) => 0
    case TooManyAttempts(_) => 1
    case LargeBackoff(_) => 2
    case DestructiveWithoutRollback(_, _) => 3
    case DuplicatePostconditions(_) => 4
    case DeadEndGate(_) => 5
  }

  ghost predicate InPlace(ds: seq<Diagnostic>) {
    forall i, j :: 0 <= i < j < |ds| ==> Place(ds[i]) <= Place(ds[j])
  }

  lemma {:induction false} EffectsPlaced(n: Node, effects: seq<EffectType>)
    ensures forall d :: d in EffectWarnings(n, effects) ==> Place(d) == 3
  {
    if effects != [] {
      EffectsPlaced(n, effects[..|effects| - 1]);
    }
  }

  lemma PlacedParts(a: seq<Diagnostic>, b: seq<Diagnostic>)
    requires InPlace(a) && InPlace(b) && forall x, y :: x in a && y in b ==> Place(x) <= Place(y)
    ensures InPlace(a + b)
  {
    forall i, j | 0 <= i < |a| && 0 <= j < |b| ensures Place(a[i]) <= Place(b[j]) {
      assert a[i] in a && b[j] in b;
    }
  }

  lemma EffectsInPlace(n: Node, effects: seq<EffectType>)
    ensures InPlace(EffectWarnings(n, effects))
  {
    var ds := EffectWarnings(n, effects);
    EffectsPlaced(n, effects);
    forall i, j | 0 <= i < j < |ds| ensures Place(ds[i]) <= Place(ds[j]) {
      assert ds[i] in ds && ds[j] in ds;
    }
  }

  lemma ThreeInPlace(a: seq<Diagnostic>, b: seq<Diagnostic>, c: seq<Diagnostic>)
    requires InPlace(a) && InPlace(b) && InPlace(c)
    requires forall x :: x in a ==> Place(x) == 2
    requires forall x :: x in b ==> Place(x) == 3
    requires forall x :: x in c ==> Place(x) == 4
    ensures InPlace(a + b + c)
  {
    PlacedParts(a, b);
    PlacedParts(a + b, c);
  }

  /** Within a node: timeout and attempts; backoff, effects and duplicate postconditions. */
  lemma NodeInPlace(n: Node)
    ensures InPlace(NodeErrors(n)) && InPlace(NodeWarnings(n))
  {
    EffectsPlaced(n, n.effects);
    EffectsInPlace(n, n.effects);
    ThreeInPlace(When(n.retryPolicy.Some? && n.retryPolicy.value.backoffMs > 600_000, LargeBackoff(n.id)),
                 EffectWarnings(n, n.effects),
                 When(|PredicateNames(n.postconditions)| < |n.postconditions|, DuplicatePostconditions(n.id)));
  }

  ghost predicate NoDeadEnds(ds: seq<Diagnostic>) {
    forall i :: 0 <= i < |ds| ==> !ds[i].DeadEndGate?
  }

  lemma NodeWarnsOfNoDeadEnd(n: Node)
    ensures NoDeadEnds(NodeWarnings(n))
  {
    EffectsPlaced(n, n.effects);
    forall i | 0 <= i < |NodeWarnings(n)| ensures !NodeWarnings(n)[i].DeadEndGate? {
      assert NodeWarnings(n)[i] in NodeWarnings(n);
    }
  }

  lemma {:induction false} BodyPlaced(nodes: seq<Node>)
    ensures NoDeadEnds(BodyWarnings(nodes))
    ensures forall i :: 0 <= i < |DeadEnds(nodes)| ==> DeadEnds(nodes)[i].DeadEndGate?
  {
    if nodes != [] {
      BodyPlaced(nodes[..|nodes| - 1]);
      NodeWarnsOfNoDeadEnd(nodes[|nodes| - 1]);
    }
  }

  /** Dead ends are reported behind all other warnings. */
  lemma DeadEndsLast(nodes: seq<Node>, i: nat, j: nat)
    requires i < j < |Warnings(nodes)| && Warnings(nodes)[i].DeadEndGate?
    ensures Warnings(nodes)[j].DeadEndGate?
  {
    BodyPlaced(nodes);
    var body, ends := BodyWarnings(nodes), DeadEnds(nodes);
    assert forall k :: |body| <= k < |body + ends| ==> (body + ends)[k] == ends[k - |body|];
  }
}
