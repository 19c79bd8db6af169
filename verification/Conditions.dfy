/** _eval_condition of vermyth/engine/operations/programs.py. */
module Conditions {
  import opened Wrappers
  import Order
  import opened Schema

  /** Python counts a bool as the number 0 or 1. */
  function Numeric(v: Value): Option<real> {
    match v
    case Num(n) => Some(n)
    case Bool(b) => Some(if b then 1.0 else 0.0)
    case _ => None
  }

  /** `got == value`. */
  predicate Equal(got: Value, value: Value) {
    if Numeric(got).Some? && Numeric(value).Some? then Numeric(got) == Numeric(value) else got == value
  }

  /** `got < value`, or None where Python raises TypeError. */
  function LessThan(got: Value, value: Value): Option<bool> {
    if Numeric(got).Some? && Numeric(value).Some? then Some(Numeric(got).value < Numeric(value).value)
    else if got.Str? && value.Str? then Some(Order.Less(got.s, value.s))
    else None
  }

  function Negated(b: Option<bool>): Option<bool> {
    match b
    case None => None
    case Some(v) => Some(!v)
  }

  /** `value in got` for the values a context can hold: numbers are not containers. */
  function ContainedIn(value: Value, got: Value): Option<bool> {
    if got.Str? && value.Str? then
      Some(exists i | 0 <= i <= |got.s| :: value.s <= got.s[i..])
    else None
  }

  /** Holds, does not hold, or None where the comparison raises. */
  function Evaluate(expr: Option<ConditionExpr>, context: map<string, Value>): Option<bool> {
    match expr
    case None => Some(true)
    case Some(e) =>
      if e.key == "" then Some(false)
      else
        var got := if e.key in context then context[e.key] else Null;
        match e.op
        case Exists => Some(e.key in context)
        case Eq => Some(Equal(got, e.value))
        case Neq => Some(!Equal(got, e.value))
        case Gt => if got == Null then Some(false) else LessThan(e.value, got)
        case Gte => if got == Null then Some(false) else Negated(LessThan(got, e.value))
        case Lt => if got == Null then Some(false) else LessThan(got, e.value)
        case Lte => if got == Null then Some(false) else Negated(LessThan(e.value, got))
        case Contains => if got == Null then Some(false) else ContainedIn(e.value, got)
  }

  /** Each condition's name with its verdict, or None if some comparison raises. */
  function EvaluateAll(conditions: seq<Condition>, context: map<string, Value>): Option<seq<(string, bool)>> {
    if conditions == [] then Some([])
    else
      var last := conditions[|conditions| - 1];
      match EvaluateAll(conditions[..|conditions| - 1], context)
      case None => None
      case Some(front) =>
        match Evaluate(last.expr, context)
        case None => None
        case Some(ok) => Some(front + [(last.predicateName, ok)])
  }

  predicate AllHold(verdicts: seq<(string, bool)>) {
    forall v <- verdicts :: v.1
  }

  method CheckConditions(conditions: seq<Condition>, context: map<string, Value>)
    returns (r: Option<seq<(string, bool)>>)
    ensures r == EvaluateAll(conditions, context)
  {
    var verdicts: seq<(string, bool)> := [];
    for i := 0 to |conditions|
      invariant EvaluateAll(conditions[..i], context) == Some(verdicts)
    {
      assert conditions[..i + 1][..i] == conditions[..i];
      var ok := Evaluate(conditions[i].expr, context);
      if ok == None {
        RaisesForLonger(conditions, context, i + 1);
        return None;
      }
      verdicts := verdicts + [(conditions[i].predicateName, ok.value)];
    }
    assert conditions[..|conditions|] == conditions;
    return Some(verdicts);
  }

  lemma {:induction false} RaisesForLonger(conditions: seq<Condition>, context: map<string, Value>, i: nat)
    requires i <= |conditions| && EvaluateAll(conditions[..i], context) == None
    ensures EvaluateAll(conditions, context) == None
    decreases |conditions| - i
  {
    if i == |conditions| {
      assert conditions[..i] == conditions;
    } else {
      assert conditions[..i + 1][..i] == conditions[..i];
      RaisesForLonger(conditions, context, i + 1);
    }
  }

  // ---- What the operators mean together ----

  predicate Comparable(got: Value, value: Value) {
    (Numeric(got).Some? && Numeric(value).Some?) || (got.Str? && value.Str?)
  }

  function Holds(op: ConditionOp, key: string, value: Value, context: map<string, Value>): Option<bool> {
    Evaluate(Some(ConditionExpr(op, key, value)), context)
  }

  /** The comparison operators order the comparable values, and raise on all others but None. */
  lemma ComparisonLaws(key: string, value: Value, context: map<string, Value>)
    requires key in context && key != ""
    ensures Holds(Neq, key, value, context) == Negated(Holds(Eq, key, value, context))
    ensures context[key] != Null && !Comparable(context[key], value) ==>
      forall op :: op in {Gt, Gte, Lt, Lte} ==> Holds(op, key, value, context) == None
    ensures context[key] == Null ==>
      forall op :: op in {Gt, Gte, Lt, Lte, Contains} ==> Holds(op, key, value, context) == Some(false)
    ensures Comparable(context[key], value) ==>
      var lt, eq, gt := Holds(Lt, key, value, context), Holds(Eq, key, value, context), Holds(Gt, key, value, context);
      && lt.Some? && eq.Some? && gt.Some?
      && (lt.value || eq.value || gt.value)
      && !(lt.value && eq.value) && !(eq.value && gt.value) && !(lt.value && gt.value)
      && Holds(Lte, key, value, context) == Some(lt.value || eq.value)
      && Holds(Gte, key, value, context) == Some(gt.value || eq.value)
  {
    var got := context[key];
    if got.Str? && value.Str? {
      Order.LessIsTotal(got.s, value.s);
      Order.LessIsIrreflexive(got.s);
      if Order.Less(got.s, value.s) {
        Order.LessIsAsymmetric(got.s, value.s);
      }
    }
  }

  /** Numbers, a bool among them as 0 or 1, compare by value. */
  lemma NumbersCompare(key: string, got: Value, value: Value, x: real, y: real)
    requires key != ""
    requires got == Num(x) || (got == Bool(true) && x == 1.0) || (got == Bool(false) && x == 0.0)
    requires value == Num(y) || (value == Bool(true) && y == 1.0) || (value == Bool(false) && y == 0.0)
    ensures var context := map[key := got];
      && Holds(Lt, key, value, context) == Some(x < y) && Holds(Lte, key, value, context) == Some(x <= y)
      && Holds(Gt, key, value, context) == Some(x > y) && Holds(Gte, key, value, context) == Some(x >= y)
      && Holds(Eq, key, value, context) == Some(x == y) && Holds(Neq, key, value, context) == Some(x != y)
      && Holds(Contains, key, value, context) == None
  {
  }

  /** `t` occurs in `s`. */
  ghost predicate Factor(t: string, s: string) {
    exists before, after :: s == before + t + after
  }

  lemma FactorAt(t: string, s: string)
    ensures Factor(t, s) <==> exists i :: 0 <= i <= |s| && t <= s[i..]
  {
    if i :| 0 <= i <= |s| && t <= s[i..] {
      assert s == s[..i] + t + s[i + |t|..];
    }
    if before, after :| s == before + t + after {
      assert s[|before|..] == t + after;
    }
  }

  lemma StringsHold(key: string, s: string, t: string)
    requires key != ""
    ensures var context, value := map[key := Str(s)], Str(t);
      && Holds(Eq, key, value, context) == Some(s == t)
      && Holds(Lt, key, value, context) == Some(Order.Less(s, t))
      && Holds(Gt, key, value, context) == Some(Order.Less(t, s))
      && Holds(Contains, key, value, context) == ContainedIn(Str(t), Str(s))
  {
  }

  /** Strings compare by their first difference, and contain exactly their factors. */
  lemma StringsCompare(key: string, s: string, t: string)
    requires key != ""
    ensures var context, value := map[key := Str(s)], Str(t);
      && Holds(Eq, key, value, context) == Some(s == t)
      && Holds(Lt, key, value, context) == Some(exists i: nat :: Order.PrecedesAt(s, t, i))
      && Holds(Gt, key, value, context) == Some(exists i: nat :: Order.PrecedesAt(t, s, i))
      && Holds(Contains, key, value, context) == Some(Factor(t, s))
  {
    StringsHold(key, s, t);
    Order.LessExactly(s, t);
    Order.LessExactly(t, s);
    FactorAt(t, s);
  }

  /** Only presence of the key decides exists; a condition without expression holds, one without key
      does not; and a missing key reads as None, which equals None only. */
  lemma MissingAndPresent(e: ConditionExpr, context: map<string, Value>)
    ensures Evaluate(None, context) == Some(true)
    ensures e.key == "" ==> Evaluate(Some(e), context) == Some(false)
    ensures e.key != "" && e.op == Exists ==> Evaluate(Some(e), context) == Some(e.key in context)
    ensures e.key != "" && e.key !in context && e.op == Eq ==> Evaluate(Some(e), context) == Some(e.value == Null)
    ensures e.key != "" && e.key !in context && e.op == Neq ==> Evaluate(Some(e), context) == Some(e.value != Null)
    ensures e.key != "" && e.key !in context && e.op != Eq && e.op != Neq ==> Evaluate(Some(e), context) == Some(false)
  {
  }

  /** The verdicts are those of the conditions, one each, in order; they are missing exactly when a
      comparison raises, and all hold exactly when every condition does. */
  lemma {:induction false} VerdictsExactly(conditions: seq<Condition>, context: map<string, Value>)
    ensures EvaluateAll(conditions, context) == None <==>
      exists c :: c in conditions && Evaluate(c.expr, context) == None
    ensures EvaluateAll(conditions, context).Some? ==>
      var verdicts := EvaluateAll(conditions, context).value;
      && |verdicts| == |conditions|
      && (forall i :: 0 <= i < |conditions| ==>
            && verdicts[i].0 == conditions[i].predicateName
            && Some(verdicts[i].1) == Evaluate(conditions[i].expr, context))
      && (AllHold(verdicts) <==> forall c :: c in conditions ==> Evaluate(c.expr, context) == Some(true))
  {
    if conditions != [] {
      var front, last := conditions[..|conditions| - 1], conditions[|conditions| - 1];
      assert conditions == front + [last];
      VerdictsExactly(front, context);
      if EvaluateAll(conditions, context).Some? {
        var verdicts := EvaluateAll(conditions, context).value;
        AllVerdicts(conditions, context, verdicts);
      }
    }
  }

  lemma AllVerdicts(conditions: seq<Condition>, context: map<string, Value>, verdicts: seq<(string, bool)>)
    requires |verdicts| == |conditions|
    requires forall i :: 0 <= i < |conditions| ==> Some(verdicts[i].1) == Evaluate(conditions[i].expr, context)
    ensures AllHold(verdicts) <==> forall c :: c in conditions ==> Evaluate(c.expr, context) == Some(true)
  {
    if AllHold(verdicts) {
      forall c | c in conditions ensures Evaluate(c.expr, context) == Some(true) {
        var i :| 0 <= i < |conditions| && conditions[i] == c;
        assert verdicts[i] in verdicts;
      }
    } else {
      var v :| v in verdicts && !v.1;
      var i :| 0 <= i < |verdicts| && verdicts[i] == v;
      assert conditions[i] in conditions;
    }
  }
}
