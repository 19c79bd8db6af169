/** Channels: chained_cast (vermyth/engine/operations/swarm.py) and sync_channel
    (vermyth/engine/operations/drift.py), and the laws of their runs. */
module Channel {
  import opened Reals
  import opened Wrappers
  import opened Schema
  import opened Vectors
  import opened SemanticVectors
  import opened Casting
  import Seeds

  datatype ChannelStatus = CoherentChannel | Strained | Decoherent

  datatype ChannelState = ChannelState(
    branchId: string, castCount: nat, cumulative: real, mean: real, streak: nat,
    lastVerdict: VerdictType, status: ChannelStatus, lastCastId: string, constraint: Option<Vector>)

  function StatusOf(mean: real): ChannelStatus {
    if mean >= 0.65 then CoherentChannel else if mean >= 0.40 then Strained else Decoherent
  }

  /** The state after a cast that scored `adjusted`. */
  function AfterCast(channel: Option<ChannelState>, freshBranch: string, castId: string, adjusted: real,
                     anchor: Vector): ChannelState
  {
    var count := (if channel.Some? then channel.value.castCount else 0) + 1;
    var cumulative := (if channel.Some? then channel.value.cumulative else 0.0) + adjusted;
    var streak := if channel.Some? then channel.value.streak else 0;
    ChannelState(
      if channel.Some? then channel.value.branchId else freshBranch,
      count, cumulative, cumulative / count as real,
      if VerdictOf(adjusted) == Coherent then streak + 1 else 0,
      VerdictOf(adjusted), StatusOf(cumulative / count as real), castId, Some(anchor))
  }

  function AfterSync(channel: ChannelState, anchor: Option<Vector>): ChannelState {
    channel.(streak := 0, status := CoherentChannel, constraint := if anchor.Some? then anchor else channel.constraint)
  }

  predicate Refuses(channel: Option<ChannelState>, force: bool) {
    channel.Some? && channel.value.status == Decoherent && !force
  }

  /** The intent vector, pulled toward the channel's constraint. */
  function Steered(sqrt: real -> real, channel: Option<ChannelState>, intent: Vector): Vector {
    if channel.Some? && channel.value.constraint.Some? then
      Unit(sqrt, Blend(0.2, intent, channel.value.constraint.value))
    else intent
  }

  /** chained_cast: refused on a decoherent channel unless forced; composing may fail. */
  method ChainedCast(sqrt: real -> real, channel: Option<ChannelState>, composed: Result<Sigil, string>,
                     intent: SemanticVector, force: bool, castId: string, freshBranch: string, basis: nat)
    returns (r: Result<(CastResult, ChannelState), string>)
    requires IsSqrt(sqrt)
    requires composed.Success? ==> 0.0 <= composed.value.profile.ceiling <= 1.0
    ensures r.Failure? <==> Refuses(channel, force) || composed.Failure?
    ensures r.Success? ==>
      var sigil := composed.value;
      var steered := Steered(sqrt, channel, intent.components);
      var adjusted := ResonanceOf(sqrt, sigil.vector.components, sigil.profile, steered).adjusted;
      && 0.0 <= adjusted <= 1.0
      && r.value.0 == CastResult(castId, VerdictOf(adjusted), adjusted, sigil.vector.components, None)
      && r.value.1 == AfterCast(channel, freshBranch, castId, adjusted, sigil.vector.components)
  {
    if channel.Some? && channel.value.status == Decoherent && !force {
      return Failure("channel is DECOHERENT; sync required");
    }
    if composed.Failure? {
      return Failure(composed.error);
    }
    var sigil := composed.value;
    var iv := Steer(sqrt, channel, intent, basis);
    var score := ComputeResonance(sqrt, sigil, iv);
    var state := UpdateState(channel, freshBranch, castId, score.adjusted, sigil.vector.components);
    var result := CastResult(castId, VerdictOf(score.adjusted), score.adjusted, sigil.vector.components, None);
    return Success((result, state));
  }

  /** The intent vector of a cast: blended with the constraint and normalised, if there is one. */
  method Steer(sqrt: real -> real, channel: Option<ChannelState>, intent: SemanticVector, basis: nat)
    returns (iv: SemanticVector)
    ensures iv.components == Steered(sqrt, channel, intent.components)
  {
    iv := intent;
    if channel.Some? && channel.value.constraint.Some? {
      var blended := BlendChannel(intent.components, channel.value.constraint.value);
      iv := SemanticVector(Unit(sqrt, blended), Some(basis));
    }
  }

  /** The step-by-step update of the counters after a cast. */
  method UpdateState(channel: Option<ChannelState>, freshBranch: string, castId: string, adjusted: real, anchor: Vector)
    returns (state: ChannelState)
    ensures state == AfterCast(channel, freshBranch, castId, adjusted, anchor)
  {
    var branchId, castCount, cumulative, streak := freshBranch, 0, 0.0, 0;
    if channel.Some? {
      branchId, castCount := channel.value.branchId, channel.value.castCount;
      cumulative, streak := channel.value.cumulative, channel.value.streak;
    }
    castCount := castCount + 1;
    cumulative := cumulative + adjusted;
    var mean := cumulative / castCount as real;
    if VerdictOf(adjusted) == Coherent {
      streak := streak + 1;
    } else {
      streak := 0;
    }
    var status := StatusOf(mean);
    state := ChannelState(
      branchId, castCount, cumulative, mean, streak, VerdictOf(adjusted), status, castId, Some(anchor));
  }

  /** The loop that blends intent and constraint 0.8 to 0.2. */
  method BlendChannel(intent: Vector, constraint: Vector) returns (blended: seq<real>)
    ensures blended == Blend(0.2, intent, constraint)
  {
    blended := [];
    var dim := Max(|intent|, |constraint|);
    for i := 0 to dim
      invariant |blended| == i
      invariant forall k :: 0 <= k < i ==> blended[k] == Blend(0.2, intent, constraint)[k]
    {
      blended := blended + [0.8 * At(intent, i) + 0.2 * At(constraint, i)];
    }
  }

  ghost predicate IsFirstBest(seeds: seq<Seeds.GlyphSeed>, i: int) {
    && 0 <= i < |seeds|
    && (forall j :: 0 <= j < i ==> seeds[j].mean < seeds[i].mean)
    && (forall j :: i <= j < |seeds| ==> seeds[j].mean <= seeds[i].mean)
  }

  /** No seed has a greater mean, and every seed before it a smaller one. */
  lemma FirstBestExactly(seeds: seq<Seeds.GlyphSeed>, best: nat)
    requires best < |seeds|
    ensures IsFirstBest(seeds, best) <==>
      forall j :: 0 <= j < |seeds| ==>
        seeds[j].mean <= seeds[best].mean && (j < best ==> seeds[j].mean != seeds[best].mean)
  {
  }

  /** sync_channel: anchors to the first of the best seeds if that one crystallizes, keeps
      the counters, ends the streak and makes the channel coherent. */
  method SyncChannel(channel: ChannelState, seeds: seq<Seeds.GlyphSeed>, compose: Seeds.Pattern -> Option<Vector>)
    returns (r: Result<ChannelState, string>)
    ensures seeds == [] ==> r == Success(AfterSync(channel, None))
    ensures seeds != [] ==> exists best :: IsFirstBest(seeds, best)
    ensures forall best :: IsFirstBest(seeds, best) ==>
      match Seeds.Crystallize(seeds[best], compose)
      case Failure(error) => r == Failure(error)
      case Success(anchor) => r == Success(AfterSync(channel, anchor))
  {
    var chosen: Option<nat> := None;
    for i := 0 to |seeds|
      invariant chosen == None <==> i == 0
      invariant chosen.Some? ==> chosen.value < i && IsFirstBest(seeds[..i], chosen.value)
    {
      if chosen == None || seeds[i].mean > seeds[chosen.value].mean {
        chosen := Some(i);
      }
    }
    assert seeds[..|seeds|] == seeds;
    assert chosen.Some? ==> forall i :: IsFirstBest(seeds, i) ==> i == chosen.value;
    var anchor: Option<Vector> := None;
    if chosen.Some? {
      var sigil := Seeds.Crystallize(seeds[chosen.value], compose);
      if sigil.Failure? {
        return Failure(sigil.error);
      }
      anchor := sigil.value;
    }
    if anchor == None {
      anchor := channel.constraint;
    }
    r := Success(channel.(streak := 0, status := CoherentChannel, constraint := anchor));
  }

  // ---- Runs ----

  /** What happens to a channel: a cast that went through, or a sync. */
  datatype Event =
    | Scored(adjusted: real, forced: bool, castId: string, anchor: Vector)
    | Synced(recovered: Option<Vector>)

  function Replay(branch: string, events: seq<Event>): Option<ChannelState> {
    if events == [] then None
    else
      var before := Replay(branch, events[..|events| - 1]);
      match events[|events| - 1]
      case Scored(adjusted, _, castId, anchor) => Some(AfterCast(before, branch, castId, adjusted, anchor))
      case Synced(anchor) => if before.Some? then Some(AfterSync(before.value, anchor)) else None
  }

  /** Each event is one the operations allow in the state it meets. */
  ghost predicate Legal(branch: string, events: seq<Event>) {
    events == [] ||
    (&& Legal(branch, events[..|events| - 1])
     && match events[|events| - 1]
        case Scored(adjusted, forced, _, _) =>
          0.0 <= adjusted <= 1.0 && !Refuses(Replay(branch, events[..|events| - 1]), forced)
        case Synced(_) => Replay(branch, events[..|events| - 1]).Some?)
  }

  function CastsIn(events: seq<Event>): nat {
    if events == [] then 0
    else CastsIn(events[..|events| - 1]) + if events[|events| - 1].Scored? then 1 else 0
  }

  function TotalScore(events: seq<Event>): real {
    if events == [] then 0.0
    else
      TotalScore(events[..|events| - 1])
        + if events[|events| - 1].Scored? then events[|events| - 1].adjusted else 0.0
  }

  /** The last `n` events are all coherent casts. */
  ghost predicate CoherentTail(events: seq<Event>, n: nat) {
    && n <= |events|
    && forall i :: |events| - n <= i < |events| ==> events[i].Scored? && VerdictOf(events[i].adjusted) == Coherent
  }

  ghost predicate ExactCounters(events: seq<Event>, s: ChannelState) {
    && s.castCount == CastsIn(events) > 0
    && s.cumulative == TotalScore(events)
    && s.mean * s.castCount as real == s.cumulative
    && 0.0 <= s.mean <= 1.0 && 0.0 <= s.cumulative <= s.castCount as real
  }

  ghost predicate ExactStreak(events: seq<Event>, s: ChannelState) {
    CoherentTail(events, s.streak) && !CoherentTail(events, s.streak + 1)
  }

  /** What holds of the state after every legal run. */
  ghost predicate Consistent(events: seq<Event>, s: ChannelState) {
    && ExactCounters(events, s) && ExactStreak(events, s)
    && s.cumulative >= 0.75 * s.streak as real
    && (s.status == CoherentChannel || s.status == StatusOf(s.mean))
    && (events != [] && events[|events| - 1].Scored? ==> s.status == StatusOf(s.mean))
  }

  lemma TailGrows(front: seq<Event>, e: Event, n: nat)
    ensures CoherentTail(front + [e], n + 1) <==>
      CoherentTail(front, n) && e.Scored? && VerdictOf(e.adjusted) == Coherent
  {
    var events := front + [e];
    if CoherentTail(events, n + 1) {
      assert events[|events| - 1] == e;
      forall i | |front| - n <= i < |front| ensures front[i].Scored? && VerdictOf(front[i].adjusted) == Coherent {
        assert events[i] == front[i];
      }
    }
  }

  lemma CastCounts(front: seq<Event>, before: Option<ChannelState>, e: Event, branch: string)
    requires e.Scored? && 0.0 <= e.adjusted <= 1.0
    requires before.Some? ==> ExactCounters(front, before.value)
    requires before.None? ==> front == []
    ensures ExactCounters(front + [e], AfterCast(before, branch, e.castId, e.adjusted, e.anchor))
  {
    var s := AfterCast(before, branch, e.castId, e.adjusted, e.anchor);
    assert (front + [e])[..|front|] == front;
    MeanInUnit(s.cumulative, s.castCount as real);
  }

  lemma CastExtendsStreak(front: seq<Event>, before: Option<ChannelState>, e: Event, branch: string)
    requires e.Scored?
    requires before.Some? ==> ExactStreak(front, before.value)
    requires before.None? ==> front == []
    ensures ExactStreak(front + [e], AfterCast(before, branch, e.castId, e.adjusted, e.anchor))
  {
    var streak := if before.Some? then before.value.streak else 0;
    TailGrows(front, e, 0);
    TailGrows(front, e, streak);
    TailGrows(front, e, streak + 1);
  }

  lemma CastKeepsConsistent(front: seq<Event>, before: Option<ChannelState>, e: Event, branch: string)
    requires e.Scored? && 0.0 <= e.adjusted <= 1.0
    requires before.Some? ==> Consistent(front, before.value)
    requires before.None? ==> front == []
    ensures Consistent(front + [e], AfterCast(before, branch, e.castId, e.adjusted, e.anchor))
  {
    CastCounts(front, before, e, branch);
    CastExtendsStreak(front, before, e, branch);
  }

  lemma SyncKeepsConsistent(front: seq<Event>, before: ChannelState, e: Event)
    requires e.Synced? && Consistent(front, before)
    ensures Consistent(front + [e], AfterSync(before, e.recovered))
  {
    assert (front + [e])[..|front|] == front;
    TailGrows(front, e, 0);
  }

  lemma ReplayStep(branch: string, front: seq<Event>, e: Event)
    requires Legal(branch, front + [e])
    ensures Legal(branch, front)
    ensures Replay(branch, front + [e]) ==
      if e.Scored? then Some(AfterCast(Replay(branch, front), branch, e.castId, e.adjusted, e.anchor))
      else if Replay(branch, front).Some? then Some(AfterSync(Replay(branch, front).value, e.recovered))
      else None
    ensures e.Scored? ==> 0.0 <= e.adjusted <= 1.0
    ensures e.Synced? ==> Replay(branch, front).Some?
  {
    assert (front + [e])[..|front|] == front;
  }

  /** Every legal run: the counters are exact, the mean is in [0, 1], the streak is exactly
      the trailing run of coherent casts since the last sync, and cumulative >= 0.75 * streak. */
  lemma {:induction false} RunsAreConsistent(branch: string, events: seq<Event>)
    requires Legal(branch, events)
    ensures Replay(branch, events).Some? <==> events != []
    ensures events != [] ==> Consistent(events, Replay(branch, events).value)
  {
    if events != [] {
      var front, e := events[..|events| - 1], events[|events| - 1];
      assert events == front + [e];
      ReplayStep(branch, front, e);
      RunsAreConsistent(branch, front);
      var before := Replay(branch, front);
      if e.Scored? {
        CastKeepsConsistent(front, before, e, branch);
      } else {
        SyncKeepsConsistent(front, before.value, e);
      }
    }
  }

  lemma SumFloor(mean: real, n: real, sum: real)
    requires mean * n == sum && mean >= 0.40 && n >= 0.0
    ensures sum >= 0.40 * n
  {
    ProductsOrder(n, 0.40, mean);
  }

  lemma MeanFloor(events: seq<Event>, s: ChannelState)
    requires ExactCounters(events, s) && s.mean >= 0.40
    ensures TotalScore(events) >= 0.40 * CastsIn(events) as real
  {
    SumFloor(s.mean, s.castCount as real, s.cumulative);
  }

  lemma NotRefusedHasMean(events: seq<Event>, s: ChannelState)
    requires Consistent(events, s) && events != [] && events[|events| - 1].Scored? && s.status != Decoherent
    ensures s.mean >= 0.40
  {
  }

  /** A cast that directly follows another cast without force meets a mean of at least 0.40:
      an unforced run never casts from a decoherent state without a sync between. */
  lemma UnforcedNeedsMean(branch: string, events: seq<Event>)
    requires Legal(branch, events) && |events| >= 2
    requires events[|events| - 1].Scored? && !events[|events| - 1].forced && events[|events| - 2].Scored?
    ensures TotalScore(events[..|events| - 1]) >= 0.40 * CastsIn(events[..|events| - 1]) as real
  {
    var front := events[..|events| - 1];
    RunsAreConsistent(branch, front);
    NotRefusedHasMean(front, Replay(branch, front).value);
    MeanFloor(front, Replay(branch, front).value);
  }

  // ---- What a run shows ----

  /** The counts add up over parts of a run, and of one event are what it scores. */
  lemma {:induction false} CountsConcat(a: seq<Event>, b: seq<Event>)
    ensures CastsIn(a + b) == CastsIn(a) + CastsIn(b)
    ensures TotalScore(a + b) == TotalScore(a) + TotalScore(b)
  {
    if b == [] {
      assert a + b == a;
    } else {
      var front, last := b[..|b| - 1], b[|b| - 1];
      CountsConcat(a, front);
      assert (a + b)[..|a + b| - 1] == a + front;
    }
  }

  lemma CountsOfOne(e: Event)
    ensures e.Scored? ==> CastsIn([e]) == 1 && TotalScore([e]) == e.adjusted
    ensures e.Synced? ==> CastsIn([e]) == 0 && TotalScore([e]) == 0.0
  {
    assert [e][..0] == [];
  }

  lemma MeanReaches(mean: real, n: real, sum: real, bound: real)
    requires n > 0.0 && mean * n == sum
    ensures mean >= bound <==> sum >= bound * n
  {
    if mean >= bound {
      ProductsOrder(n, bound, mean);
    }
    if sum >= bound * n {
      CancelFactor(bound, mean, n);
    }
  }

  ghost predicate StatusFits(status: ChannelStatus, sum: real, n: real) {
    && (status == CoherentChannel <==> sum >= 0.65 * n)
    && (status == Decoherent <==> sum < 0.40 * n)
  }

  lemma StatusOfMean(mean: real, n: real, sum: real)
    requires n > 0.0 && mean * n == sum
    ensures StatusFits(StatusOf(mean), sum, n)
  {
    MeanReaches(mean, n, sum, 0.65);
    MeanReaches(mean, n, sum, 0.40);
  }

  lemma StatusOfCounters(events: seq<Event>, s: ChannelState)
    requires ExactCounters(events, s)
    ensures StatusFits(StatusOf(s.mean), TotalScore(events), CastsIn(events) as real)
  {
    StatusOfMean(s.mean, s.castCount as real, s.cumulative);
  }

  lemma ConsistentParts(events: seq<Event>, s: ChannelState)
    requires Consistent(events, s) && events != [] && events[|events| - 1].Scored?
    ensures ExactCounters(events, s) && s.status == StatusOf(s.mean)
  {
  }

  /** Directly after a cast, the status follows from the mean score of all casts. */
  lemma StatusExactly(branch: string, events: seq<Event>)
    requires Legal(branch, events) && events != [] && events[|events| - 1].Scored?
    ensures Replay(branch, events).Some?
    ensures StatusFits(Replay(branch, events).value.status, TotalScore(events), CastsIn(events) as real)
  {
    RunsAreConsistent(branch, events);
    ConsistentParts(events, Replay(branch, events).value);
    StatusOfCounters(events, Replay(branch, events).value);
  }

  /** Directly after a cast, an unforced one is let through exactly when the mean score so far is
      at least 0.40; a first cast, a forced one and one directly after a sync always are. */
  lemma LetThroughExactly(branch: string, front: seq<Event>, e: Event)
    requires Legal(branch, front) && e.Scored? && 0.0 <= e.adjusted <= 1.0
    ensures front != [] && front[|front| - 1].Scored? && !e.forced ==>
      (Legal(branch, front + [e]) <==> TotalScore(front) >= 0.40 * CastsIn(front) as real)
    ensures front == [] || front[|front| - 1].Synced? || e.forced ==> Legal(branch, front + [e])
  {
    assert (front + [e])[..|front|] == front;
    RunsAreConsistent(branch, front);
    if front != [] && front[|front| - 1].Scored? {
      StatusExactly(branch, front);
    }
  }

  /** What else the state holds after a run: its branch, the id and verdict of the last cast, and
      the vector last anchored. */
  ghost predicate Shows(s: ChannelState, branch: string, castId: string, adjusted: real, anchor: Vector) {
    && s.branchId == branch && s.lastCastId == castId && s.constraint == Some(anchor)
    && (s.lastVerdict == Coherent <==> adjusted >= 0.75) && (s.lastVerdict == Incoherent <==> adjusted < 0.45)
  }

  lemma {:induction false} KeepsBranch(branch: string, events: seq<Event>)
    ensures Replay(branch, events).Some? ==> Replay(branch, events).value.branchId == branch
  {
    if events != [] {
      KeepsBranch(branch, events[..|events| - 1]);
    }
  }

  lemma CastShows(branch: string, front: seq<Event>, e: Event)
    requires e.Scored?
    ensures Replay(branch, front + [e]).Some?
    ensures Shows(Replay(branch, front + [e]).value, branch, e.castId, e.adjusted, e.anchor)
  {
    assert (front + [e])[..|front|] == front;
    KeepsBranch(branch, front + [e]);
  }

  /** Of a cast and the syncs that follow it, `anchor` is the last vector given. */
  ghost predicate LastAnchored(e: Event, syncs: seq<Event>, anchor: Vector)
    requires e.Scored? && forall i :: 0 <= i < |syncs| ==> syncs[i].Synced?
  {
    || (anchor == e.anchor && forall i :: 0 <= i < |syncs| ==> syncs[i].recovered == None)
    || (exists i :: 0 <= i < |syncs| && syncs[i].recovered == Some(anchor)
                    && forall j :: i < j < |syncs| ==> syncs[j].recovered == None)
  }

  /** Syncs after a cast keep what it shows, but for the anchor of the last sync that gave one. */
  lemma {:induction false} SyncShows(branch: string, front: seq<Event>, e: Event, syncs: seq<Event>, anchor: Vector)
    requires e.Scored? && forall i :: 0 <= i < |syncs| ==> syncs[i].Synced?
    requires LastAnchored(e, syncs, anchor)
    ensures Replay(branch, front + [e] + syncs).Some?
    ensures Shows(Replay(branch, front + [e] + syncs).value, branch, e.castId, e.adjusted, anchor)
    ensures syncs != [] ==>
      var s := Replay(branch, front + [e] + syncs).value; s.streak == 0 && s.status == CoherentChannel
  {
    var events := front + [e] + syncs;
    if syncs == [] {
      assert events == front + [e];
      CastShows(branch, front, e);
    } else {
      var before, last := syncs[..|syncs| - 1], syncs[|syncs| - 1];
      assert events[..|events| - 1] == front + [e] + before && events[|events| - 1] == last;
      if last.recovered.None? {
        SyncShows(branch, front, e, before, anchor);
      } else {
        assert last.recovered == Some(anchor);
        var earlier := LastAnchor(e, before);
        SyncShows(branch, front, e, before, earlier);
      }
    }
  }

  /** The vector anchored last. */
  lemma {:induction false} LastAnchor(e: Event, syncs: seq<Event>) returns (anchor: Vector)
    requires e.Scored? && forall i :: 0 <= i < |syncs| ==> syncs[i].Synced?
    ensures LastAnchored(e, syncs, anchor)
  {
    if syncs == [] {
      anchor := e.anchor;
    } else if syncs[|syncs| - 1].recovered.Some? {
      anchor := syncs[|syncs| - 1].recovered.value;
    } else {
      anchor := LastAnchor(e, syncs[..|syncs| - 1]);
    }
  }

  /** A steered intent: four parts of the intent to one of the constraint, normalised. */
  lemma SteeredExactly(sqrt: real -> real, channel: Option<ChannelState>, intent: Vector, mixed: Vector)
    requires channel.Some? && channel.value.constraint.Some?
    requires |mixed| == Max(|intent|, |channel.value.constraint.value|)
    requires forall i :: 0 <= i < |mixed| ==>
      5.0 * mixed[i] == 4.0 * At(intent, i) + At(channel.value.constraint.value, i)
    ensures Steered(sqrt, channel, intent) == Unit(sqrt, mixed)
  {
    assert Blend(0.2, intent, channel.value.constraint.value) == mixed;
  }

  lemma NotSteered(sqrt: real -> real, channel: Option<ChannelState>, intent: Vector)
    requires channel.None? || channel.value.constraint.None?
    ensures Steered(sqrt, channel, intent) == intent
  {
  }
}
