/** Swarms: swarm_cast (vermyth/engine/operations/swarm.py) and the member table that
    tool_swarm_join and tool_swarm_cast keep (vermyth/mcp/tools/swarm.py). */
module Swarm {
  import opened Reals
  import opened Wrappers
  import opened Order
  import opened Schema
  import opened Vectors
  import opened SemanticVectors
  import opened Casting

  datatype Member = Member(vector: Vector, streak: nat)

  datatype SwarmStatus = CoherentSwarm | Strained | Decoherent

  /** 1.0 + 0.01 * min(100, streak). */
  function Weight(streak: nat): (w: real)
    ensures 1.0 <= w <= 2.0
  {
    1.0 + 0.01 * (if streak < 100 then streak else 100) as real
  }

  function TotalWeight(ms: seq<Member>): real {
    if ms == [] then 0.0 else TotalWeight(ms[..|ms| - 1]) + Weight(ms[|ms| - 1].streak)
  }

  function WeightedSum(ms: seq<Member>, i: nat): real {
    if ms == [] then 0.0
    else WeightedSum(ms[..|ms| - 1], i) + Weight(ms[|ms| - 1].streak) * At(ms[|ms| - 1].vector, i)
  }

  /** The pre-normalised aggregate. */
  function Aggregate(ms: seq<Member>, dim: nat): (r: Vector)
    requires TotalWeight(ms) > 0.0
    ensures |r| == dim && forall i :: 0 <= i < dim ==> r[i] == WeightedSum(ms, i) / TotalWeight(ms)
  {
    seq(dim, i requires 0 <= i => WeightedSum(ms, i) / TotalWeight(ms))
  }

  lemma {:induction false} TotalWeightBounds(ms: seq<Member>)
    ensures |ms| as real <= TotalWeight(ms) <= 2.0 * |ms| as real
  {
    if ms != [] {
      TotalWeightBounds(ms[..|ms| - 1]);
    }
  }

  lemma {:induction false} OthersWeigh(ms: seq<Member>, k: nat)
    requires k < |ms|
    ensures TotalWeight(ms) >= Weight(ms[k].streak) + (|ms| - 1) as real
  {
    var front := ms[..|ms| - 1];
    if k < |front| {
      OthersWeigh(front, k);
      assert front[k] == ms[k];
    } else {
      TotalWeightBounds(front);
    }
  }

  lemma ShareArithmetic(w: real, total: real, n: real)
    requires 1.0 <= w <= 2.0 && n >= 1.0 && total >= w + (n - 1.0)
    ensures w <= (2.0 / (n + 1.0)) * total
  {
    var bound := 2.0 / (n + 1.0);
    assert bound * (n + 1.0) == 2.0;
    assert bound > 0.0;
    // bound <= 1, so w - bound*w is largest at w = 2
    assert bound <= 1.0 by { QuotientAtMost(2.0, n + 1.0, 1.0); }
    assert bound * total >= bound * (w + (n - 1.0)) by { ProductsOrder(bound, w + (n - 1.0), total); }
    assert bound * (w + (n - 1.0)) == 2.0 - bound * (2.0 - w);
    assert bound * (2.0 - w) <= 1.0 * (2.0 - w) by { ProductsOrder(2.0 - w, bound, 1.0); }
    assert w <= bound * (w + (n - 1.0));
  }

  lemma ShareQuotient(w: real, total: real, n: real)
    requires 1.0 <= w <= 2.0 && n >= 1.0 && total >= w + (n - 1.0)
    ensures total > 0.0 && n + 1.0 > 0.0
    ensures w / total <= 2.0 / (n + 1.0)
  {
    ShareArithmetic(w, total, n);
    QuotientAtMost(w, total, 2.0 / (n + 1.0));
  }

  /** No member's share of the weight exceeds 2/(n+1). */
  lemma ShareBound(ms: seq<Member>, k: nat)
    requires k < |ms|
    ensures TotalWeight(ms) > 0.0 && |ms| as real + 1.0 > 0.0
    ensures Weight(ms[k].streak) / TotalWeight(ms) <= 2.0 / (|ms| as real + 1.0)
  {
    OthersWeigh(ms, k);
    ShareQuotient(Weight(ms[k].streak), TotalWeight(ms), |ms| as real);
  }

  /** The weighted sum, were every component `c`. */
  function ConstantSum(ms: seq<Member>, c: real): real {
    if ms == [] then 0.0 else ConstantSum(ms[..|ms| - 1], c) + Weight(ms[|ms| - 1].streak) * c
  }

  lemma {:induction false} ConstantSumIsProduct(ms: seq<Member>, c: real)
    ensures ConstantSum(ms, c) == c * TotalWeight(ms)
  {
    if ms != [] {
      var front, w := ms[..|ms| - 1], Weight(ms[|ms| - 1].streak);
      ConstantSumIsProduct(front, c);
      Distribute(c, TotalWeight(front), w);
    }
  }

  /** What the last member adds to either sum. */
  lemma SumsStep(ms: seq<Member>, i: nat, c: real) returns (x: real, y: real)
    requires ms != []
    ensures WeightedSum(ms, i) == WeightedSum(ms[..|ms| - 1], i) + x
    ensures ConstantSum(ms, c) == ConstantSum(ms[..|ms| - 1], c) + y
    ensures At(ms[|ms| - 1].vector, i) <= c ==> x <= y
    ensures c <= At(ms[|ms| - 1].vector, i) ==> y <= x
  {
    var last := ms[|ms| - 1];
    var w, v := Weight(last.streak), At(last.vector, i);
    x, y := w * v, w * c;
    if v <= c {
      ProductsOrder(w, v, c);
    }
    if c <= v {
      ProductsOrder(w, c, v);
    }
  }

  lemma {:induction false} SumAtLeast(ms: seq<Member>, i: nat, low: real)
    requires forall m :: m in ms ==> low <= At(m.vector, i)
    ensures ConstantSum(ms, low) <= WeightedSum(ms, i)
  {
    if ms != [] {
      var front, last := ms[..|ms| - 1], ms[|ms| - 1];
      assert last in ms && forall m :: m in front ==> m in ms;
      SumAtLeast(front, i, low);
      var x, y := SumsStep(ms, i, low);
    }
  }

  lemma {:induction false} SumAtMost(ms: seq<Member>, i: nat, high: real)
    requires forall m :: m in ms ==> At(m.vector, i) <= high
    ensures WeightedSum(ms, i) <= ConstantSum(ms, high)
  {
    if ms != [] {
      var front, last := ms[..|ms| - 1], ms[|ms| - 1];
      assert last in ms && forall m :: m in front ==> m in ms;
      SumAtMost(front, i, high);
      var x, y := SumsStep(ms, i, high);
    }
  }

  lemma WeightedBounds(ms: seq<Member>, i: nat, low: real, high: real)
    requires forall m :: m in ms ==> low <= At(m.vector, i) <= high
    ensures low * TotalWeight(ms) <= WeightedSum(ms, i) <= high * TotalWeight(ms)
  {
    SumAtLeast(ms, i, low);
    SumAtMost(ms, i, high);
    ConstantSumIsProduct(ms, low);
    ConstantSumIsProduct(ms, high);
  }

  lemma QuotientBetween(x: real, d: real, low: real, high: real)
    requires d > 0.0 && low * d <= x <= high * d
    ensures low <= x / d <= high
  {
    QuotientAtLeast(x, d, low);
    QuotientAtMost(x, d, high);
  }

  lemma MeanBetween(ms: seq<Member>, i: nat, low: real, high: real)
    requires TotalWeight(ms) > 0.0 && forall m :: m in ms ==> low <= At(m.vector, i) <= high
    ensures low <= WeightedSum(ms, i) / TotalWeight(ms) <= high
  {
    WeightedBounds(ms, i, low, high);
    QuotientBetween(WeightedSum(ms, i), TotalWeight(ms), low, high);
  }

  /** Each pre-normalised component lies between the members' least and greatest. */
  lemma ComponentBetween(ms: seq<Member>, dim: nat, i: nat, low: real, high: real)
    requires ms != [] && i < dim && forall m :: m in ms ==> low <= At(m.vector, i) <= high
    ensures TotalWeight(ms) > 0.0
    ensures low <= Aggregate(ms, dim)[i] <= high
  {
    TotalWeightBounds(ms);
    MeanBetween(ms, i, low, high);
  }

  /** The inner accumulator loop: adds a member's weighted components. */
  method AddWeighted(acc: seq<real>, w: real, v: Vector) returns (next: seq<real>)
    ensures |next| == |acc| && forall i :: 0 <= i < |acc| ==> next[i] == acc[i] + w * At(v, i)
  {
    next := [];
    for i := 0 to |acc|
      invariant |next| == i && forall j :: 0 <= j < i ==> next[j] == acc[j] + w * At(v, j)
    {
      next := next + [acc[i] + w * At(v, i)];
    }
  }

  /** The accumulator loops: weights, weighted sums and their quotients. */
  method AggregateMembers(ms: seq<Member>, dim: nat) returns (agg: seq<real>)
    requires ms != []
    ensures TotalWeight(ms) > 0.0 && agg == Aggregate(ms, dim)
  {
    TotalWeightBounds(ms);
    var acc := seq(dim, _ => 0.0);
    var sumW := 0.0;
    for k := 0 to |ms|
      invariant sumW == TotalWeight(ms[..k])
      invariant |acc| == dim && forall i :: 0 <= i < dim ==> acc[i] == WeightedSum(ms[..k], i)
    {
      assert ms[..k + 1][..k] == ms[..k];
      var w := Weight(ms[k].streak);
      sumW := sumW + w;
      acc := AddWeighted(acc, w, ms[k].vector);
    }
    assert ms[..|ms|] == ms;
    agg := seq(dim, i requires 0 <= i < |acc| => acc[i] / sumW);
    assert agg == Aggregate(ms, dim);
  }

  /** The constraint on a stored consensus threshold. */
  predicate ValidThreshold(x: real) {
    0.0 <= x <= 1.0
  }

  /** The consensus a cast reaches. */
  function Consensus(adjusted: real, threshold: real): SwarmStatus {
    if VerdictOf(adjusted) == Coherent && adjusted >= threshold then CoherentSwarm
    else if VerdictOf(adjusted) == Incoherent then Decoherent
    else Strained
  }

  function NewStreak(status: SwarmStatus, streak: nat): nat {
    match status
    case CoherentSwarm => streak + 1
    case Decoherent => 0
    case Strained => streak
  }

  // ---- Runs ----

  /** What happens to a swarm: a session joins, or a session's cast reaches a consensus. */
  datatype Event = Joined(session: string) | Casted(session: string, status: SwarmStatus)

  predicate IsMember(trace: seq<Event>, session: string) {
    exists e <- trace :: e.session == session
  }

  /** The streak the table holds for a member after a trace. */
  function StreakAfter(trace: seq<Event>, session: string): nat {
    if trace == [] then 0
    else
      var front, last := trace[..|trace| - 1], trace[|trace| - 1];
      match last
      case Joined(s) => if s == session then 0 else StreakAfter(front, session)
      case Casted(s, status) =>
        if IsMember(front, session) then NewStreak(status, StreakAfter(front, session))
        else if s == session then NewStreak(status, 0)
        else 0
  }

  function CoherentCasts(trace: seq<Event>): nat {
    if trace == [] then 0
    else
      var last := trace[|trace| - 1];
      CoherentCasts(trace[..|trace| - 1]) + if last.Casted? && last.status == CoherentSwarm then 1 else 0
  }

  predicate Resets(e: Event, session: string) {
    e == Joined(session) || (e.Casted? && e.status == Decoherent)
  }

  /** The run of `session` starts at `start`: right after its last join or the last decoherent
      cast it was part of, or with its first submission; nothing resets it afterwards. */
  ghost predicate RunStarts(trace: seq<Event>, session: string, start: nat) {
    && start <= |trace|
    && (forall i :: start <= i < |trace| ==> !Resets(trace[i], session))
    && (|| (start > 0 && Resets(trace[start - 1], session) && IsMember(trace[..start], session))
        || (start < |trace| && !IsMember(trace[..start], session)
              && trace[start].Casted? && trace[start].session == session))
  }

  /** A run goes on over an event that does not reset it. */
  lemma RunGoesOn(trace: seq<Event>, session: string, start: nat)
    requires trace != [] && RunStarts(trace[..|trace| - 1], session, start) && !Resets(trace[|trace| - 1], session)
    ensures RunStarts(trace, session, start)
  {
    var front := trace[..|trace| - 1];
    assert trace[..start] == front[..start];
    forall i | start <= i < |trace| ensures !Resets(trace[i], session) {
      assert i < |front| ==> trace[i] == front[i];
    }
  }

  /** Every member has a run, and so a start of it. */
  lemma {:induction false} RunStart(trace: seq<Event>, session: string) returns (start: nat)
    requires IsMember(trace, session)
    ensures RunStarts(trace, session, start)
  {
    var front, last := trace[..|trace| - 1], trace[|trace| - 1];
    if Resets(last, session) {
      start := |trace|;
      assert trace[..start] == trace;
    } else if IsMember(front, session) {
      start := RunStart(front, session);
      RunGoesOn(trace, session, start);
    } else {
      start := |front|;
      assert trace == front + [last];
      MemberGrows(front, last, session);
    }
  }

  lemma MemberGrows(front: seq<Event>, last: Event, session: string)
    ensures IsMember(front + [last], session) <==> IsMember(front, session) || last.session == session
  {
    if IsMember(front, session) {
      var e :| e in front && e.session == session;
      assert e in front + [last];
    }
    if last.session == session {
      assert last in front + [last];
    }
  }

  lemma {:induction false} MemberOfLonger(trace: seq<Event>, k: nat, session: string)
    requires k <= |trace| && IsMember(trace[..k], session)
    ensures IsMember(trace, session)
  {
    var e :| e in trace[..k] && e.session == session;
    assert e in trace;
  }

  lemma ResetStreak(trace: seq<Event>, session: string)
    requires trace != [] && Resets(trace[|trace| - 1], session)
    ensures StreakAfter(trace, session) == 0
  {
  }

  /** A member's streak is the number of coherent-consensus casts since the later of its last
      join (or first submission, that cast included) and the last decoherent cast. */
  lemma {:induction false} StreakCounts(trace: seq<Event>, session: string, start: nat)
    requires RunStarts(trace, session, start)
    ensures StreakAfter(trace, session) == CoherentCasts(trace[start..])
  {
    if start == |trace| {
      assert trace[..start] == trace && trace[start..] == [];
      ResetStreak(trace, session);
    } else {
      var front, last := trace[..|trace| - 1], trace[|trace| - 1];
      assert trace[start..][..|trace| - start - 1] == front[start..];
      assert trace[..start] == front[..start];
      assert !Resets(last, session);
      if start < |front| || IsMember(front[..start], session) {
        assert RunStarts(front, session, start);
        StreakCounts(front, session, start);
        if IsMember(front[..start], session) {
          MemberOfLonger(front, start, session);
        } else {
          assert front[start] in front;
        }
      } else {
        assert front[..start] == front && front[start..] == [];
      }
    }
  }

  /** The member table of one swarm. */
  class SwarmStore {
    var created: bool
    var threshold: real
    var status: SwarmStatus
    var members: map<string, Member>
    ghost var trace: seq<Event>

    /** The table holds exactly the sessions of the trace, with the streaks it gives them. */
    ghost predicate Valid()
      reads this
    {
      && ValidThreshold(threshold)
      && (!created ==> trace == [])
      && (forall s :: s in members <==> IsMember(trace, s))
      && (forall s :: s in members ==> members[s].streak == StreakAfter(trace, s))
    }

    constructor ()
      ensures Valid() && !created && trace == []
    {
      created, threshold, status, members, trace := false, 0.75, Strained, map[], [];
    }

    /** The streak in a member's row counts the coherent casts of its run. */
    lemma RowCountsRun(session: string) returns (start: nat)
      requires Valid() && session in members
      ensures RunStarts(trace, session, start)
      ensures members[session].streak == CoherentCasts(trace[start..])
    {
      start := RunStart(trace, session);
      StreakCounts(trace, session, start);
    }

    /** tool_swarm_join: a swarm is not created with a threshold outside [0, 1]; that of a swarm
        that exists is left as it is, whatever is asked for. */
    method Join(session: string, consensusThreshold: real, dim: nat) returns (r: Result<(), string>)
      requires Valid()
      modifies this
      ensures Valid()
      ensures r.Failure? <==> !old(created) && !ValidThreshold(consensusThreshold)
      ensures r.Failure? ==> unchanged(this)
      ensures r.Success? ==>
        && created && trace == old(trace) + [Joined(session)]
        && members == old(members)[session := Member(Zeros(dim), 0)]
        && threshold == (if old(created) then old(threshold) else consensusThreshold)
        && status == (if old(created) then old(status) else Strained)
    {
      if !created {
        if !ValidThreshold(consensusThreshold) {
          return Failure("consensus_threshold must be between 0 and 1");
        }
        created, threshold, status := true, consensusThreshold, Strained;
      }
      ghost var before := trace;
      members := members[session := Member(Zeros(dim), 0)];
      trace := trace + [Joined(session)];
      forall s ensures IsMember(trace, s) <==> IsMember(before, s) || s == session {
        MemberGrows(before, Joined(session), s);
      }
      assert trace[..|trace| - 1] == before;
      return Success(());
    }

    /** tool_swarm_cast: nothing changes when the vector is short, the swarm unknown or the engine
        without anchors. Otherwise every member's row is rewritten with its new streak, and only
        then a threshold outside [0, 1] makes the call fail, with the swarm's own row as it was. */
    method Cast(sqrt: real -> real, e: Engine, session: string, vector: Vector, consensusThreshold: Option<real>,
                dim: nat, castId: string)
      returns (r: Result<CastResult, string>, ghost ids: seq<string>)
      requires Valid() && IsSqrt(sqrt) && ValidEngine(e)
      modifies this
      ensures Valid()
      ensures var thr := if consensusThreshold.Some? then consensusThreshold.value else old(threshold);
        if |vector| < 6 || !old(created) || !e.hasAnchors then r.Failure? && unchanged(this)
        else
          var table := Submitted(old(members), session, vector);
          IdsInOrder(table, ids) &&
          var result := SwarmResult(sqrt, e, table, ids, dim, castId);
          var reached := Consensus(result.adjusted, thr);
          && created && trace == old(trace) + [Casted(session, reached)]
          && members == AfterConsensus(table, reached)
          && if ValidThreshold(thr) then r == Success(result) && threshold == thr && status == reached
             else r.Failure? && threshold == old(threshold) && status == old(status)
    {
      ids := [];
      if |vector| < 6 {
        return Failure("vector must contain at least 6 floats"), ids;
      }
      if !created {
        return Failure("unknown swarm"), ids;
      }
      var thr := if consensusThreshold.Some? then consensusThreshold.value else threshold;
      var bySession := Submitted(members, session, vector);
      r, ids := CastTogether(sqrt, e, bySession, dim, castId);
      if r.Failure? {
        return;
      }
      var reached := Consensus(r.value.adjusted, thr);
      WriteStreaks(session, bySession, reached);
      if !ValidThreshold(thr) {
        return Failure("consensus_threshold must be between 0 and 1"), ids;
      }
      threshold, status := thr, reached;
    }

    /** Writes every member's row after the consensus just reached. */
    method WriteStreaks(session: string, bySession: map<string, Member>, reached: SwarmStatus)
      requires Valid() && created && session in bySession
      requires bySession.Keys == members.Keys + {session}
      requires forall s :: s in bySession ==> bySession[s].streak == (if s in members then members[s].streak else 0)
      modifies this`members, this`trace
      ensures Valid() && trace == old(trace) + [Casted(session, reached)]
      ensures members == AfterConsensus(bySession, reached)
    {
      ghost var before := trace;
      members := UpsertRows(members, bySession, reached);
      trace := trace + [Casted(session, reached)];
      assert trace[..|trace| - 1] == before;
      forall s ensures IsMember(trace, s) <==> IsMember(before, s) || s == session {
        MemberGrows(before, Casted(session, reached), s);
      }
    }
  }

  /** The loop that upserts each row with its new streak. */
  method UpsertRows(members: map<string, Member>, bySession: map<string, Member>, status: SwarmStatus)
    returns (table: map<string, Member>)
    requires members.Keys <= bySession.Keys
    ensures table == AfterConsensus(bySession, status)
  {
    ghost var rewritten := AfterConsensus(bySession, status);
    var left := bySession.Keys;
    table := members;
    while left != {}
      invariant left <= bySession.Keys
      invariant table.Keys == members.Keys + (bySession.Keys - left)
      invariant forall s :: s in bySession.Keys - left ==> table[s] == rewritten[s]
      decreases left
    {
      var sid :| sid in left;
      table := table[sid := Member(bySession[sid].vector, NewStreak(status, bySession[sid].streak))];
      left := left - {sid};
    }
    assert table.Keys == rewritten.Keys;
  }

  /** swarm_cast on the members in session order: the fluid cast of the weighted aggregate. */
  method CastTogether(sqrt: real -> real, e: Engine, bySession: map<string, Member>, dim: nat, castId: string)
    returns (r: Result<CastResult, string>, ghost ids: seq<string>)
    requires IsSqrt(sqrt) && ValidEngine(e) && bySession.Keys != {}
    ensures IdsInOrder(bySession, ids)
    ensures r.Failure? <==> !e.hasAnchors
    ensures r.Success? ==> r.value == SwarmResult(sqrt, e, bySession, ids, dim, castId)
  {
    var sorted := SortedList(bySession.Keys);
    ids := sorted;
    var some :| some in bySession.Keys;
    assert some in sorted;
    RowsWeigh(bySession, ids);
    var agg := AggregateMembers(Rows(bySession, sorted), dim);
    UnitIsIdempotent(sqrt, agg);
    r := Casting.FluidCast(sqrt, e, SemanticVector(Unit(sqrt, agg), Some(e.basis)), castId);
  }

  ghost predicate IdsInOrder(table: map<string, Member>, ids: seq<string>) {
    Sorted(ids) && NoDup(ids) && forall s :: s in ids <==> s in table
  }

  function Rows(table: map<string, Member>, ids: seq<string>): (r: seq<Member>)
    requires forall s :: s in ids ==> s in table
    ensures |r| == |ids| && forall i :: 0 <= i < |ids| ==> r[i] == table[ids[i]]
  {
    seq(|ids|, i requires 0 <= i < |ids| => assert ids[i] in ids; table[ids[i]])
  }

  lemma RowsWeigh(table: map<string, Member>, ids: seq<string>)
    requires IdsInOrder(table, ids) && table.Keys != {}
    ensures ids != [] && TotalWeight(Rows(table, ids)) > 0.0
  {
    var s :| s in table.Keys;
    assert s in ids;
    TotalWeightBounds(Rows(table, ids));
  }

  /** The cast of the unit vector of the members' weighted aggregate. */
  ghost function SwarmResult(sqrt: real -> real, e: Engine, table: map<string, Member>, ids: seq<string>, dim: nat,
                             castId: string): CastResult
    requires IdsInOrder(table, ids) && table.Keys != {}
  {
    RowsWeigh(table, ids);
    CastOn(sqrt, e, Unit(sqrt, Aggregate(Rows(table, ids), dim)), castId, None)
  }

  /** The table a cast is aggregated over: the submitted vector replaces the session's old one. */
  function Submitted(members: map<string, Member>, session: string, vector: Vector): (r: map<string, Member>)
    ensures r.Keys == members.Keys + {session}
  {
    members[session := Member(vector, if session in members then members[session].streak else 0)]
  }

  /** Every row with the streak the consensus gives it. */
  function AfterConsensus(table: map<string, Member>, status: SwarmStatus): (r: map<string, Member>)
    ensures r.Keys == table.Keys
    ensures forall s :: s in table ==>
      r[s].vector == table[s].vector && r[s].streak == NewStreak(status, table[s].streak)
  {
    map s | s in table :: Member(table[s].vector, NewStreak(status, table[s].streak))
  }

  // ---- Weights, sums and consensus in plain numbers ----

  /** A member weighs a hundredth more for every coherent cast of its streak, up to a hundred. */
  lemma WeightExactly(streak: nat)
    ensures streak <= 100 ==> 100.0 * Weight(streak) == 100.0 + streak as real
    ensures streak >= 100 ==> Weight(streak) == 2.0
  {
  }

  /** The sums add up over parts, and of one member are its weight and its weighted component. */
  lemma {:induction false} SumsConcat(a: seq<Member>, b: seq<Member>, i: nat)
    ensures TotalWeight(a + b) == TotalWeight(a) + TotalWeight(b)
    ensures WeightedSum(a + b, i) == WeightedSum(a, i) + WeightedSum(b, i)
  {
    if b == [] {
      assert a + b == a;
    } else {
      var front, last := b[..|b| - 1], b[|b| - 1];
      SumsConcat(a, front, i);
      assert (a + b)[..|a + b| - 1] == a + front;
    }
  }

  lemma SumsOfOne(m: Member, i: nat)
    ensures TotalWeight([m]) == Weight(m.streak)
    ensures WeightedSum([m], i) == Weight(m.streak) * At(m.vector, i)
  {
    assert [m][..0] == [];
  }

  /** Coherent means a score of 0.75 that also reaches the threshold, decoherent one below 0.45. */
  lemma ConsensusExactly(adjusted: real, threshold: real)
    ensures Consensus(adjusted, threshold) == CoherentSwarm <==> adjusted >= 0.75 && adjusted >= threshold
    ensures Consensus(adjusted, threshold) == Decoherent <==> adjusted < 0.45
  {
  }

  /** A coherent cast lengthens every streak by one, a decoherent one ends it, any other keeps it. */
  lemma StreaksExactly(adjusted: real, threshold: real, streak: nat)
    ensures var next := NewStreak(Consensus(adjusted, threshold), streak);
      && (next == streak + 1 <==> adjusted >= 0.75 && adjusted >= threshold)
      && (adjusted < 0.45 ==> next == 0)
      && (adjusted >= 0.45 && (adjusted < 0.75 || adjusted < threshold) ==> next == streak)
  {
  }

  /** A submission gives the session its vector and keeps its streak, 0 if it has none. */
  lemma SubmittedExactly(members: map<string, Member>, session: string, vector: Vector)
    ensures var table := Submitted(members, session, vector);
      && table[session].vector == vector
      && table[session].streak == (if session in members then members[session].streak else 0)
      && forall s :: s in members && s != session ==> table[s] == members[s]
  {
  }

  lemma AggregateOfOne(m: Member, dim: nat, i: nat)
    requires i < dim && TotalWeight([m]) > 0.0
    ensures Aggregate([m], dim)[i] == At(m.vector, i)
  {
    SumsOfOne(m, i);
    Same(Weight(m.streak), At(m.vector, i), WeightedSum([m], i));
  }

  lemma Same(w: real, x: real, product: real)
    requires w > 0.0 && product == w * x
    ensures product / w == x
  {
    QuotientTimes(product, w);
    CancelFactor(product / w, x, w);
    CancelFactor(x, product / w, w);
  }
}
