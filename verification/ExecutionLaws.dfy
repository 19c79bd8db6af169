/** What every run keeps: the shape of its receipt list, rollback in reverse
    completion order, one receipt per node, and what a missing receipt means. */
module ExecutionLaws {
  import opened Wrappers
  import opened Order
  import opened Graph
  import opened Schema
  import opened Conditions
  import opened TopologicalOrder
  import opened Execution
  import OI = OrderIndependence

  function NodeIds(receipts: seq<Receipt>): (ids: seq<string>)
    ensures |ids| == |receipts| && forall i :: 0 <= i < |ids| ==> ids[i] == receipts[i].nodeId
  {
    seq(|receipts|, i requires 0 <= i < |receipts| => receipts[i].nodeId)
  }

  function Reverse(s: seq<string>): (r: seq<string>)
    ensures |r| == |s| && forall i :: 0 <= i < |s| ==> r[i] == s[|s| - 1 - i]
  {
    if s == [] then [] else [s[|s| - 1]] + Reverse(s[..|s| - 1])
  }

  predicate CastsANode(nodes: map<string, Node>, r: Receipt) {
    r.status == OkReceipt && r.nodeId in nodes && nodes[r.nodeId].kind != Gate && nodes[r.nodeId].kind != Merge
  }

  /** The nodes whose receipts say that a cast completed, in completion order. */
  function CastsCompleted(nodes: map<string, Node>, receipts: seq<Receipt>): seq<string> {
    if receipts == [] then []
    else
      var last := receipts[|receipts| - 1];
      CastsCompleted(nodes, receipts[..|receipts| - 1]) + if CastsANode(nodes, last) then [last.nodeId] else []
  }

  function QueueIds(queue: seq<Node>): seq<string> {
    seq(|queue|, i requires 0 <= i < |queue| => queue[i].id)
  }

  ghost predicate OkOrSkipped(receipts: seq<Receipt>) {
    forall r :: r in receipts ==> r.status == OkReceipt || r.status == SkippedReceipt
  }

  ghost predicate Before(o: seq<string>, a: string, b: string) {
    exists p, q :: 0 <= p < q < |o| && o[p] == a && o[q] == b
  }

  ghost predicate InOrder(o: seq<string>, ids: seq<string>) {
    forall i, j :: 0 <= i < j < |ids| ==> Before(o, ids[i], ids[j])
  }

  /** The kinds of node a visit can belong to, and how the attempts of a cast went. */
  ghost predicate Fits(node: Node, visit: Visit, attempt: Oracle)
    requires ValidNode(node)
  {
    && (visit.CastDone? || visit.CastFailed? ==> node.kind != Gate && node.kind != Merge)
    && (visit.CastDone? ==>
          && visit.retries < MaxAttempts(node) && attempt(node.id, visit.retries + 1).Returns?
          && forall k: nat :: 1 <= k <= visit.retries ==> attempt(node.id, k).Raises?)
    && (visit.Merged? || visit.NothingToMerge? ==> node.kind == Merge)
    && (visit.GateOpen? || visit.GateClosed? ==> node.kind == Gate)
    && (visit.CastFailed? ==>
          && visit.retries == MaxAttempts(node) - 1
          && FailsWith(attempt, node.id, MaxAttempts(node), visit.error)
          && forall k: nat :: 1 <= k <= MaxAttempts(node) ==> attempt(node.id, k).Raises?)
  }

  /** The error reported is the last attempt's message, or a stock one if that is empty. */
  ghost predicate FailsWith(attempt: Oracle, id: string, n: nat, error: string) {
    || (attempt(id, n) == Raises(error) && error != "")
    || (attempt(id, n) == Raises("") && error == "execution_failed")
  }

  /** A node without a retry policy is attempted once. */
  lemma AttemptsAllowed(n: Node)
    requires ValidNode(n)
    ensures n.retryPolicy == None ==> MaxAttempts(n) == 1
    ensures n.retryPolicy.Some? ==> MaxAttempts(n) == n.retryPolicy.value.maxAttempts
  {
  }

  /** A step over an unblocked node applies the outcome of one visit. */
  lemma StepVisits(setup: Setup, s: RunState, id: string) returns (visit: Visit)
    requires ValidSetup(setup) && id in setup.nodes && s.halt == Going && id !in s.blocked
    ensures Step(setup, s, id) == Apply(s, setup.nodes[id], visit)
    ensures Fits(setup.nodes[id], visit, setup.attempt)
  {
    visit := VisitIn(setup, s, id);
    TryLaw(setup.attempt, id, MaxAttempts(setup.nodes[id]));
  }

  /** What a visit that goes on adds to the receipts and to the queue. */
  lemma AppliedGoing(s: RunState, node: Node, visit: Visit)
    requires s.halt == Going && Apply(s, node, visit).halt == Going
    ensures Apply(s, node, visit).receipts == s.receipts + ReceiptsOf(node.id, visit)
    ensures Apply(s, node, visit).queue == s.queue + if visit.CastDone? then [node] else []
    ensures OkOrSkipped(ReceiptsOf(node.id, visit)) && |ReceiptsOf(node.id, visit)| <= 1
  {
  }

  /** The receipt of a visit reports a completed cast exactly when the visit completed one. */
  lemma VisitCasts(nodes: map<string, Node>, node: Node, visit: Visit, attempt: Oracle)
    requires ValidNode(node) && node.id in nodes && nodes[node.id] == node && Fits(node, visit, attempt)
    ensures (exists r :: r in ReceiptsOf(node.id, visit) && CastsANode(nodes, r)) <==> visit.CastDone?
  {
    if visit.CastDone? {
      assert CastsANode(nodes, ReceiptsOf(node.id, visit)[0]);
    }
  }

  /** What a visit adds: at most one receipt, and it is a completed cast exactly
      when the node joins the rollback queue. */
  lemma ApplyCasts(nodes: map<string, Node>, s: RunState, node: Node, visit: Visit, attempt: Oracle)
    requires ValidNode(node) && node.id in nodes && nodes[node.id] == node
    requires s.halt == Going && Fits(node, visit, attempt) && Apply(s, node, visit).halt == Going
    ensures var end := Apply(s, node, visit);
      && end.receipts == s.receipts + ReceiptsOf(node.id, visit)
      && OkOrSkipped(ReceiptsOf(node.id, visit))
      && CastsCompleted(nodes, end.receipts)
           == CastsCompleted(nodes, s.receipts) + (if visit.CastDone? then [node.id] else [])
      && QueueIds(end.queue) == QueueIds(s.queue) + (if visit.CastDone? then [node.id] else [])
  {
    var added := ReceiptsOf(node.id, visit);
    AppliedGoing(s, node, visit);
    VisitCasts(nodes, node, visit, attempt);
    if added == [] {
      assert s.receipts + added == s.receipts;
    } else {
      assert added == [added[0]] && added[0].nodeId == node.id;
      CastsAppend(nodes, s.receipts, added[0]);
    }
  }

  lemma CastsAppend(nodes: map<string, Node>, receipts: seq<Receipt>, r: Receipt)
    ensures CastsCompleted(nodes, receipts + [r])
         == CastsCompleted(nodes, receipts) + if CastsANode(nodes, r) then [r.nodeId] else []
  {
    assert (receipts + [r])[..|receipts|] == receipts;
  }

  /** While a run goes on, its receipts are OK or SKIPPED, and the rollback queue
      holds exactly the casts they report as completed. */
  lemma {:induction false} QueueMatchesReceipts(setup: Setup, o: seq<string>)
    requires ValidSetup(setup) && forall id :: id in o ==> id in setup.nodes
    requires Run(setup, o).halt == Going
    ensures OkOrSkipped(Run(setup, o).receipts)
    ensures QueueIds(Run(setup, o).queue) == CastsCompleted(setup.nodes, Run(setup, o).receipts)
  {
    if o != [] {
      var id, s := o[|o| - 1], Run(setup, o[..|o| - 1]);
      assert s.halt == Going;
      QueueMatchesReceipts(setup, o[..|o| - 1]);
      if id !in s.blocked {
        var visit := StepVisits(setup, s, id);
        ApplyCasts(setup.nodes, s, setup.nodes[id], visit, setup.attempt);
      }
    }
  }

  lemma {:induction false} RollbackStatus(queue: seq<Node>, r: Receipt)
    requires r in Rollback(queue)
    ensures r.status == RolledBackReceipt
  {
    var front := queue[..|queue| - 1];
    if r in Rollback(front) {
      RollbackStatus(front, r);
    }
  }

  lemma NodeIdsOfSum(a: seq<Receipt>, b: seq<Receipt>)
    ensures NodeIds(a + b) == NodeIds(a) + NodeIds(b)
  {
  }

  lemma {:induction false} RollbackIds(queue: seq<Node>)
    ensures NodeIds(Rollback(queue)) == Reverse(QueueIds(queue))
  {
    if queue != [] {
      var front, last := queue[..|queue| - 1], queue[|queue| - 1];
      RollbackIds(front);
      var first := Rollback(queue)[0];
      assert Rollback(queue) == [first] + Rollback(front);
      NodeIdsOfSum([first], Rollback(front));
      assert NodeIds([first]) == [last.id];
      assert QueueIds(queue)[..|queue| - 1] == QueueIds(front);
    }
  }

  lemma RollbackReverses(queue: seq<Node>)
    ensures NodeIds(Rollback(queue)) == Reverse(QueueIds(queue))
    ensures forall r :: r in Rollback(queue) ==> r.status == RolledBackReceipt
  {
    RollbackIds(queue);
    forall r | r in Rollback(queue) ensures r.status == RolledBackReceipt {
      RollbackStatus(queue, r);
    }
  }

  /** The index at which a run halts, with the state before it. */
  lemma {:induction false} HaltIndex(setup: Setup, o: seq<string>) returns (k: nat)
    requires ValidSetup(setup) && forall id :: id in o ==> id in setup.nodes
    requires Run(setup, o).halt != Going
    ensures k < |o| && Run(setup, o[..k]).halt == Going
    ensures o[k] !in Run(setup, o[..k]).blocked
    ensures Run(setup, o) == Step(setup, Run(setup, o[..k]), o[k])
  {
    var front := o[..|o| - 1];
    if Run(setup, front).halt == Going {
      k := |o| - 1;
    } else {
      k := HaltIndex(setup, front);
      assert front[..k] == o[..k];
    }
  }

  /** A rollback receipt names its node's strategy, and carries nothing else. */
  ghost predicate UndoneBy(r: Receipt, strategy: Option<RollbackStrategy>) {
    && r.pre == [] && r.post == [] && r.retries == 0
    && (strategy == None || strategy == Some(NoRollback) ==> r.error == Some("rollback:none"))
    && (strategy == Some(Compensate) ==> r.error == Some("rollback:compensate"))
    && (strategy == Some(UndoLog) ==> r.error == Some("rollback:undo_log"))
    && (strategy == Some(CheckpointRestore) ==> r.error == Some("rollback:checkpoint_restore"))
  }

  lemma {:induction false} RollbackNames(queue: seq<Node>, r: Receipt)
    requires r in Rollback(queue)
    ensures exists n :: n in queue && n.id == r.nodeId && UndoneBy(r, n.rollback)
  {
    var front, last := queue[..|queue| - 1], queue[|queue| - 1];
    if r in Rollback(front) {
      RollbackNames(front, r);
      var n :| n in front && n.id == r.nodeId && UndoneBy(r, n.rollback);
      assert n in queue;
    } else {
      assert last in queue && last.id == r.nodeId && UndoneBy(r, last.rollback);
    }
  }

  lemma {:induction false} QueueIsKnown(setup: Setup, o: seq<string>)
    requires ValidSetup(setup) && forall id :: id in o ==> id in setup.nodes
    ensures forall n :: n in Run(setup, o).queue ==> n.id in setup.nodes && setup.nodes[n.id] == n
  {
    if o != [] {
      var id, s := o[|o| - 1], Run(setup, o[..|o| - 1]);
      QueueIsKnown(setup, o[..|o| - 1]);
      if s.halt == Going && id !in s.blocked {
        var visit := StepVisits(setup, s, id);
        AppliedReceipts(s, setup.nodes[id], visit);
      }
    }
  }

  /** Rollback: a failed run's receipts are OK or SKIPPED, then one FAILED for the node
      all whose attempts raised, then one ROLLED_BACK per completed cast, last first. */
  lemma FailedRun(setup: Setup, o: seq<string>) returns (head: seq<Receipt>, failed: Receipt, tail: seq<Receipt>)
    requires ValidSetup(setup) && forall id :: id in o ==> id in setup.nodes
    requires Run(setup, o).halt.FailedAt?
    ensures Run(setup, o).receipts == head + [failed] + tail
    ensures OkOrSkipped(head)
    ensures failed.status == FailedReceipt && failed.nodeId == Run(setup, o).halt.id && failed.nodeId in setup.nodes
    ensures failed.retries == MaxAttempts(setup.nodes[failed.nodeId]) - 1
    ensures failed.error.Some?
      && FailsWith(setup.attempt, failed.nodeId, MaxAttempts(setup.nodes[failed.nodeId]), failed.error.value)
    ensures forall k: nat :: 1 <= k <= MaxAttempts(setup.nodes[failed.nodeId]) ==>
      setup.attempt(failed.nodeId, k).Raises?
    ensures forall r :: r in tail ==> r.status == RolledBackReceipt
    ensures NodeIds(tail) == Reverse(CastsCompleted(setup.nodes, head))
    ensures forall r :: r in tail ==> r.nodeId in setup.nodes && UndoneBy(r, setup.nodes[r.nodeId].rollback)
  {
    var k := HaltIndex(setup, o);
    var s, id := Run(setup, o[..k]), o[k];
    QueueMatchesReceipts(setup, o[..k]);
    RollbackReverses(s.queue);
    var visit := StepVisits(setup, s, id);
    QueueIsKnown(setup, o[..k]);
    forall r | r in Rollback(s.queue) ensures r.nodeId in setup.nodes && UndoneBy(r, setup.nodes[r.nodeId].rollback) {
      RollbackNames(s.queue, r);
    }
    head, failed, tail := s.receipts, ReceiptsOf(id, visit)[0], Rollback(s.queue);
  }

  lemma FailedHasReceipt(setup: Setup, o: seq<string>)
    requires ValidSetup(setup) && forall id :: id in o ==> id in setup.nodes
    requires Run(setup, o).halt.FailedAt?
    ensures exists r :: r in Run(setup, o).receipts && r.status == FailedReceipt
  {
    var head, failed, tail := FailedRun(setup, o);
    assert failed in head + [failed] + tail;
  }

  /** A run that does not fail leaves no FAILED and no ROLLED_BACK receipt. */
  lemma CompletedRunIsClean(setup: Setup, o: seq<string>)
    requires ValidSetup(setup) && forall id :: id in o ==> id in setup.nodes
    ensures Run(setup, o).halt.FailedAt? <==> exists r :: r in Run(setup, o).receipts && r.status == FailedReceipt
    ensures (exists r :: r in Run(setup, o).receipts && r.status == RolledBackReceipt) ==> Run(setup, o).halt.FailedAt?
  {
    if Run(setup, o).halt.FailedAt? {
      FailedHasReceipt(setup, o);
    } else if Run(setup, o).halt == Going {
      QueueMatchesReceipts(setup, o);
    } else {
      var k := HaltIndex(setup, o);
      QueueMatchesReceipts(setup, o[..k]);
    }
  }

  // ---- Retries ----

  lemma {:induction false} TryFrom(attempt: Oracle, id: string, k: nat, n: nat)
    requires 1 <= k <= n
    ensures var t := Try(attempt, id, k, n);
      && (t.GaveUp? <==> forall j: nat :: k <= j <= n ==> attempt(id, j).Raises?)
      && (t.GaveUp? ==> t.retries == n - 1 && attempt(id, n) == Raises(t.error))
      && (t.Gave? ==>
            && k <= t.retries + 1 <= n
            && attempt(id, t.retries + 1) == Returns(t.result)
            && forall j: nat :: k <= j <= t.retries ==> attempt(id, j).Raises?)
    decreases n - k
  {
    if attempt(id, k).Raises? && k < n {
      TryFrom(attempt, id, k + 1, n);
      var t := Try(attempt, id, k, n);
      if t.GaveUp? {
        forall j: nat | k <= j <= n ensures attempt(id, j).Raises? {
          assert j == k || k + 1 <= j;
        }
      }
    }
  }

  /** A cast is given up exactly when every attempt raises; otherwise `retries`
      counts the failures before the first success. */
  lemma TryLaw(attempt: Oracle, id: string, n: nat)
    requires n >= 1
    ensures var t := Try(attempt, id, 1, n);
      && (t.GaveUp? <==> forall j: nat :: 1 <= j <= n ==> attempt(id, j).Raises?)
      && (t.GaveUp? ==> t.retries == n - 1 && attempt(id, n) == Raises(t.error))
      && (t.Gave? ==>
            && t.retries < n
            && attempt(id, t.retries + 1) == Returns(t.result)
            && forall j: nat :: 1 <= j <= t.retries ==> attempt(id, j).Raises?)
  {
    TryFrom(attempt, id, 1, n);
  }

  /** What the retry count of a receipt means: an OK cast's counts the attempts that raised before
      the first that returned, a failed node's is one less than the attempts, all of which
      raised; other receipts count none. */
  ghost predicate CountsRetries(setup: Setup, r: Receipt)
    requires ValidSetup(setup)
  {
    && r.nodeId in setup.nodes
    && var node := setup.nodes[r.nodeId];
       var n := MaxAttempts(node);
       if r.status == FailedReceipt then
         && node.kind != Gate && node.kind != Merge && r.retries == n - 1
         && forall k: nat :: 1 <= k <= n ==> setup.attempt(r.nodeId, k).Raises?
       else if CastsANode(setup.nodes, r) then
         && r.retries < n && setup.attempt(r.nodeId, r.retries + 1).Returns?
         && forall k: nat :: 1 <= k <= r.retries ==> setup.attempt(r.nodeId, k).Raises?
       else
         r.retries == 0
  }

  lemma VisitCountsRetries(setup: Setup, id: string, visit: Visit, r: Receipt)
    requires ValidSetup(setup) && id in setup.nodes
    requires Fits(setup.nodes[id], visit, setup.attempt) && r in ReceiptsOf(id, visit)
    ensures CountsRetries(setup, r)
  {
  }

  lemma {:induction false} RollbackCountsNone(setup: Setup, queue: seq<Node>, r: Receipt)
    requires ValidSetup(setup) && r in Rollback(queue) && forall node :: node in queue ==> node.id in setup.nodes
    ensures CountsRetries(setup, r)
  {
    var front := queue[..|queue| - 1];
    assert forall node :: node in front ==> node in queue;
    if r in Rollback(front) {
      RollbackCountsNone(setup, front, r);
    }
  }

  /** In every run, completed, failed or aborted, every receipt's retry count is exact. */
  lemma {:induction false} ReceiptsCountRetries(setup: Setup, o: seq<string>)
    requires ValidSetup(setup) && forall id :: id in o ==> id in setup.nodes
    ensures forall r :: r in Run(setup, o).receipts ==> CountsRetries(setup, r)
    ensures forall node :: node in Run(setup, o).queue ==> node.id in setup.nodes
  {
    if o != [] {
      var id, s := o[|o| - 1], Run(setup, o[..|o| - 1]);
      ReceiptsCountRetries(setup, o[..|o| - 1]);
      if s.halt == Going && id !in s.blocked {
        var visit := StepVisits(setup, s, id);
        AppliedReceipts(s, setup.nodes[id], visit);
        forall r | r in Run(setup, o).receipts ensures CountsRetries(setup, r) {
          if r in ReceiptsOf(id, visit) {
            VisitCountsRetries(setup, id, visit, r);
          } else if r in Rollback(s.queue) {
            RollbackCountsNone(setup, s.queue, r);
          }
        }
      }
    }
  }

  lemma AppliedReceipts(s: RunState, node: Node, visit: Visit)
    ensures forall r :: r in Apply(s, node, visit).receipts ==>
      r in s.receipts || r in ReceiptsOf(node.id, visit) || r in Rollback(s.queue)
    ensures forall n :: n in Apply(s, node, visit).queue ==> n in s.queue || n == node
  {
  }

  // ---- Accounting ----

  lemma BeforeExtends(o: seq<string>, more: seq<string>, ids: seq<string>)
    requires InOrder(o, ids)
    ensures InOrder(o + more, ids)
  {
    forall i, j | 0 <= i < j < |ids| ensures Before(o + more, ids[i], ids[j]) {
      assert Before(o, ids[i], ids[j]);
      var p, q :| 0 <= p < q < |o| && o[p] == ids[i] && o[q] == ids[j];
      assert (o + more)[p] == ids[i] && (o + more)[q] == ids[j];
    }
  }

  lemma InOrderAppend(o: seq<string>, ids: seq<string>, id: string)
    requires InOrder(o, ids) && forall x :: x in ids ==> x in o
    ensures InOrder(o + [id], ids + [id])
  {
    BeforeExtends(o, [id], ids);
    forall i | 0 <= i < |ids| ensures Before(o + [id], ids[i], id) {
      assert ids[i] in o;
      var p :| 0 <= p < |o| && o[p] == ids[i];
      assert (o + [id])[p] == ids[i] && (o + [id])[|o|] == id;
    }
    assert forall i, j :: 0 <= i < j < |ids + [id]| && j < |ids| ==> Before(o + [id], ids[i], ids[j]);
  }

  /** A visit that goes on adds its node's receipt, or none. */
  lemma ApplyIds(s: RunState, node: Node, visit: Visit)
    requires s.halt == Going && Apply(s, node, visit).halt == Going
    ensures var ids := NodeIds(Apply(s, node, visit).receipts);
      ids == NodeIds(s.receipts) || ids == NodeIds(s.receipts) + [node.id]
  {
    var added := ReceiptsOf(node.id, visit);
    assert NodeIds(s.receipts + added) == NodeIds(s.receipts) + NodeIds(added);
    assert s.receipts + [] == s.receipts;
    if added != [] {
      assert NodeIds(added) == [node.id];
    }
  }

  /** While a run goes on, receipts come in visiting order. */
  lemma {:induction false} ReceiptsInOrder(setup: Setup, o: seq<string>)
    requires ValidSetup(setup) && forall id :: id in o ==> id in setup.nodes
    requires Run(setup, o).halt == Going
    ensures InOrder(o, NodeIds(Run(setup, o).receipts))
    ensures forall id :: id in NodeIds(Run(setup, o).receipts) ==> id in o
  {
    if o != [] {
      var front, id := o[..|o| - 1], o[|o| - 1];
      var s := Run(setup, front);
      assert s.halt == Going && o == front + [id];
      ReceiptsInOrder(setup, front);
      BeforeExtends(front, [id], NodeIds(s.receipts));
      if id !in s.blocked {
        var visit := StepVisits(setup, s, id);
        InOrderAppend(front, NodeIds(s.receipts), id);
        ApplyIds(s, setup.nodes[id], visit);
      }
    }
  }

  lemma InOrderIsNoDup(o: seq<string>, ids: seq<string>)
    requires NoDup(o) && InOrder(o, ids)
    ensures NoDup(ids)
  {
    forall i, j | 0 <= i < j < |ids| ensures ids[i] != ids[j] {
      assert Before(o, ids[i], ids[j]);
    }
  }

  /** The receipts of a run, without those of the rollback. */
  function Visits(receipts: seq<Receipt>): seq<Receipt> {
    if receipts == [] then []
    else
      var last := receipts[|receipts| - 1];
      Visits(receipts[..|receipts| - 1]) + if last.status == RolledBackReceipt then [] else [last]
  }

  lemma {:induction false} VisitsOfHead(head: seq<Receipt>)
    requires forall r :: r in head ==> r.status != RolledBackReceipt
    ensures Visits(head) == head
  {
    if head != [] {
      var front, last := head[..|head| - 1], head[|head| - 1];
      assert head == front + [last] && last in head;
      VisitsOfHead(front);
    }
  }

  lemma {:induction false} VisitsOfParts(head: seq<Receipt>, tail: seq<Receipt>)
    requires forall r :: r in head ==> r.status != RolledBackReceipt
    requires forall r :: r in tail ==> r.status == RolledBackReceipt
    ensures Visits(head + tail) == head
  {
    if tail == [] {
      assert head + tail == head;
      VisitsOfHead(head);
    } else {
      var last := tail[|tail| - 1];
      assert (head + tail)[..|head + tail| - 1] == head + tail[..|tail| - 1];
      assert last in tail && (head + tail)[|head + tail| - 1] == last;
      VisitsOfParts(head, tail[..|tail| - 1]);
      assert head + [] == head;
    }
  }

  lemma GoingReceipts(setup: Setup, o: seq<string>)
    requires ValidSetup(setup) && forall id :: id in o ==> id in setup.nodes
    requires Run(setup, o).halt == Going
    ensures Visits(Run(setup, o).receipts) == Run(setup, o).receipts
  {
    var receipts := Run(setup, o).receipts;
    QueueMatchesReceipts(setup, o);
    VisitsOfParts(receipts, []);
    assert receipts + [] == receipts;
  }

  lemma FailedVisits(receipts: seq<Receipt>, failed: seq<Receipt>, queue: seq<Node>)
    requires OkOrSkipped(receipts) && |failed| == 1 && failed[0].status == FailedReceipt
    ensures NodeIds(Visits(receipts + failed + Rollback(queue))) == NodeIds(receipts) + [failed[0].nodeId]
  {
    RollbackReverses(queue);
    VisitsOfParts(receipts + failed, Rollback(queue));
    NodeIdsOfSum(receipts, failed);
  }

  /** The non-rollback receipts once a visit halts the run: those before it and, if
      the halt is a failure, one more for the failed node. */
  lemma HaltedReceipts(s: RunState, node: Node, visit: Visit)
    requires s.halt == Going && OkOrSkipped(s.receipts) && Apply(s, node, visit).halt != Going
    ensures NodeIds(Visits(Apply(s, node, visit).receipts))
         == NodeIds(s.receipts) + if Apply(s, node, visit).halt.FailedAt? then [node.id] else []
  {
    if visit.CastFailed? {
      var failed := ReceiptsOf(node.id, visit);
      assert Apply(s, node, visit).receipts == s.receipts + failed + Rollback(s.queue);
      FailedVisits(s.receipts, failed, s.queue);
    } else {
      VisitsOfParts(s.receipts, []);
      assert s.receipts + [] == s.receipts && NodeIds(s.receipts) + [] == NodeIds(s.receipts);
    }
  }

  /** The part of a run up to its halt, and what is visited after. */
  lemma HaltedInOrder(setup: Setup, o: seq<string>, k: nat)
    requires ValidSetup(setup) && k < |o| && forall id :: id in o ==> id in setup.nodes
    requires Run(setup, o[..k]).halt == Going
    ensures InOrder(o, NodeIds(Run(setup, o[..k]).receipts))
    ensures InOrder(o, NodeIds(Run(setup, o[..k]).receipts) + [o[k]])
  {
    var ids := NodeIds(Run(setup, o[..k]).receipts);
    ReceiptsInOrder(setup, o[..k]);
    InOrderAppend(o[..k], ids, o[k]);
    BeforeExtends(o[..k] + [o[k]], o[k + 1..], ids + [o[k]]);
    assert o[..k] + [o[k]] + o[k + 1..] == o;
    InOrderPrefix(o, ids, [o[k]]);
  }

  /** In every run, halted or not, the non-rollback receipts come in visiting order. */
  lemma VisitsInOrder(setup: Setup, o: seq<string>)
    requires ValidSetup(setup) && forall id :: id in o ==> id in setup.nodes
    ensures InOrder(o, NodeIds(Visits(Run(setup, o).receipts)))
  {
    if Run(setup, o).halt == Going {
      GoingReceipts(setup, o);
      ReceiptsInOrder(setup, o);
    } else {
      var k := HaltIndex(setup, o);
      var visit := StepVisits(setup, Run(setup, o[..k]), o[k]);
      QueueMatchesReceipts(setup, o[..k]);
      HaltedReceipts(Run(setup, o[..k]), setup.nodes[o[k]], visit);
      HaltedInOrder(setup, o, k);
      assert NodeIds(Run(setup, o[..k]).receipts) + [] == NodeIds(Run(setup, o[..k]).receipts);
    }
  }

  /** Every node has at most one receipt that is not a rollback. */
  lemma OneReceiptPerNode(setup: Setup, o: seq<string>)
    requires ValidSetup(setup) && NoDup(o) && forall id :: id in o ==> id in setup.nodes
    ensures NoDup(NodeIds(Visits(Run(setup, o).receipts)))
  {
    VisitsInOrder(setup, o);
    InOrderIsNoDup(o, NodeIds(Visits(Run(setup, o).receipts)));
  }

  /** What the steps taken so far say about a node blocked by them. */
  ghost predicate Untouched(s: RunState, id: string) {
    id !in NodeIds(s.receipts) && id !in s.results
  }

  lemma {:induction false} BlockedUntouched(setup: Setup, o: seq<string>, k: nat)
    requires OI.GraphSetup(setup) && OI.OrderOf(setup, o) && k <= |o|
    requires forall id :: id in o ==> id in setup.nodes
    requires Run(setup, o[..k]).halt == Going
    ensures forall id :: id in Run(setup, o[..k]).blocked ==> Untouched(Run(setup, o[..k]), id)
    ensures forall id :: id !in o[..k] ==> Untouched(Run(setup, o[..k]), id)
  {
    if k > 0 {
      var before, id := Run(setup, o[..k - 1]), o[k - 1];
      assert o[..k][..k - 1] == o[..k - 1];
      assert before.halt == Going;
      BlockedUntouched(setup, o, k - 1);
      assert id !in o[..k - 1];
      if id !in before.blocked {
        var visit := StepVisits(setup, before, id);
        var after := Run(setup, o[..k]);
        VisitTouchesOnly(before, setup.nodes[id], visit);
        SuccessorsComeLater(setup, o, k - 1);
        forall x | x !in o[..k] ensures Untouched(after, x) {
          assert x !in o[..k - 1] && x != id;
        }
        forall x | x in after.blocked ensures Untouched(after, x) {
          assert x in before.blocked || x !in o[..k];
        }
      }
    }
  }

  /** A visit touches no other node, and blocks only successors. */
  lemma VisitTouchesOnly(s: RunState, node: Node, visit: Visit)
    requires s.halt == Going && Apply(s, node, visit).halt == Going
    ensures forall x :: x != node.id && Untouched(s, x) ==> Untouched(Apply(s, node, visit), x)
    ensures forall x :: x in Apply(s, node, visit).blocked ==> x in s.blocked || x in node.successors
  {
    var added := ReceiptsOf(node.id, visit);
    assert NodeIds(s.receipts + added) == NodeIds(s.receipts) + NodeIds(added);
    assert visit.NothingToMerge? ==> added == [];
    assert s.receipts + [] == s.receipts;
  }

  lemma SuccessorsComeLater(setup: Setup, o: seq<string>, k: nat)
    requires OI.GraphSetup(setup) && OI.OrderOf(setup, o) && k < |o|
    requires o[k] in setup.nodes
    ensures forall x :: x in setup.nodes[o[k]].successors ==> x !in o[..k + 1]
  {
    var g := Successors(setup.nodes);
    forall x | x in setup.nodes[o[k]].successors ensures x !in o[..k + 1] {
      assert Edge(g, o[k], x);
    }
  }

  /** Blocking is timely: whatever way a run ends, a blocked node has no receipt of
      any kind and no result. */
  lemma BlockedNeverExecutes(setup: Setup, o: seq<string>)
    requires OI.GraphSetup(setup) && OI.OrderOf(setup, o) && forall id :: id in o ==> id in setup.nodes
    ensures forall id :: id in Run(setup, o).blocked ==> Untouched(Run(setup, o), id)
  {
    if Run(setup, o).halt == Going {
      assert o[..|o|] == o;
      BlockedUntouched(setup, o, |o|);
    } else {
      var k := HaltIndex(setup, o);
      var s := Run(setup, o[..k]);
      BlockedUntouched(setup, o, k);
      QueueMatchesReceipts(setup, o[..k]);
      var visit := StepVisits(setup, s, o[k]);
      HaltedUntouched(setup.nodes, s, setup.nodes[o[k]], visit);
    }
  }

  lemma {:induction false} CompletedHaveReceipts(nodes: map<string, Node>, receipts: seq<Receipt>)
    ensures forall id :: id in CastsCompleted(nodes, receipts) ==> id in NodeIds(receipts)
  {
    if receipts != [] {
      var front, last := receipts[..|receipts| - 1], receipts[|receipts| - 1];
      CompletedHaveReceipts(nodes, front);
      assert NodeIds(receipts) == NodeIds(front) + [last.nodeId];
    }
  }

  lemma HaltedUntouched(nodes: map<string, Node>, s: RunState, node: Node, visit: Visit)
    requires s.halt == Going && Apply(s, node, visit).halt != Going && node.id !in s.blocked
    requires QueueIds(s.queue) == CastsCompleted(nodes, s.receipts)
    requires forall id :: id in s.blocked ==> Untouched(s, id)
    ensures forall id :: id in Apply(s, node, visit).blocked ==> Untouched(Apply(s, node, visit), id)
  {
    if visit.CastFailed? {
      CompletedHaveReceipts(nodes, s.receipts);
      RollbackReverses(s.queue);
      var undone := Rollback(s.queue);
      assert NodeIds(s.receipts + ReceiptsOf(node.id, visit) + undone)
        == NodeIds(s.receipts) + [node.id] + NodeIds(undone);
      forall id | id in s.blocked ensures id !in NodeIds(undone) {
        ReverseMembers(QueueIds(s.queue), id);
      }
    }
  }

  lemma ReverseMembers(s: seq<string>, x: string)
    ensures x in Reverse(s) <==> x in s
  {
    if x in s {
      var i :| 0 <= i < |s| && s[i] == x;
      assert Reverse(s)[|s| - 1 - i] == x;
    }
  }

  lemma {:induction false} CompletedInOrder(nodes: map<string, Node>, o: seq<string>, receipts: seq<Receipt>)
    requires InOrder(o, NodeIds(receipts))
    ensures InOrder(o, CastsCompleted(nodes, receipts))
  {
    if receipts != [] {
      var front, last := receipts[..|receipts| - 1], receipts[|receipts| - 1];
      assert NodeIds(receipts) == NodeIds(front) + [last.nodeId];
      assert InOrder(o, NodeIds(front)) by {
        forall i, j | 0 <= i < j < |front| ensures Before(o, NodeIds(front)[i], NodeIds(front)[j]) {
          assert Before(o, NodeIds(receipts)[i], NodeIds(receipts)[j]);
        }
      }
      CompletedInOrder(nodes, o, front);
      CompletedHaveReceipts(nodes, front);
      var done := CastsCompleted(nodes, front);
      forall i | 0 <= i < |done| ensures Before(o, done[i], last.nodeId) {
        assert done[i] in NodeIds(front);
        var m :| 0 <= m < |front| && NodeIds(front)[m] == done[i];
        assert Before(o, NodeIds(receipts)[m], NodeIds(receipts)[|front|]);
      }
    }
  }

  /** A node that came before another is not its descendant. */
  lemma LaterIsNoAncestor(g: Digraph, o: seq<string>, a: string, b: string)
    requires Closed(g) && IsTopological(g, o) && Before(o, a, b)
    ensures !Descends(g, b, a)
  {
    var p, q :| 0 <= p < q < |o| && o[p] == a && o[q] == b;
    forall path | |path| >= 2 && IsPath(g, path) && path[0] == b && path[|path| - 1] == a ensures false {
      PathAdvances(g, o, path, q, p);
    }
  }

  lemma InOrderPrefix(o: seq<string>, ids: seq<string>, more: seq<string>)
    requires InOrder(o, ids + more)
    ensures InOrder(o, ids)
  {
    forall i, j | 0 <= i < j < |ids| ensures Before(o, ids[i], ids[j]) {
      assert Before(o, (ids + more)[i], (ids + more)[j]);
    }
  }

  lemma ReverseKeepsDescendantsFirst(g: Digraph, o: seq<string>, done: seq<string>)
    requires Closed(g) && IsTopological(g, o) && InOrder(o, done)
    ensures NoDup(Reverse(done))
    ensures forall i, j :: 0 <= i < j < |done| ==> !Descends(g, Reverse(done)[i], Reverse(done)[j])
  {
    var r := Reverse(done);
    forall i, j | 0 <= i < j < |done| ensures r[i] != r[j] && !Descends(g, r[i], r[j]) {
      assert Before(o, done[|done| - 1 - j], done[|done| - 1 - i]);
      LaterIsNoAncestor(g, o, r[j], r[i]);
      InOrderIsNoDup(o, done);
    }
  }

  /** The saga property: every completed cast is rolled back once, and never before
      a completed descendant of it. */
  lemma RollbackRespectsDescendants(setup: Setup, o: seq<string>, head: seq<Receipt>, failed: Receipt,
                                    tail: seq<Receipt>)
    requires OI.GraphSetup(setup) && OI.OrderOf(setup, o) && forall id :: id in o ==> id in setup.nodes
    requires Run(setup, o).receipts == head + [failed] + tail
    requires OkOrSkipped(head) && failed.status == FailedReceipt
    requires forall r :: r in tail ==> r.status == RolledBackReceipt
    requires NodeIds(tail) == Reverse(CastsCompleted(setup.nodes, head))
    ensures NoDup(NodeIds(tail))
    ensures forall i, j :: 0 <= i < j < |tail| ==>
      !Descends(Successors(setup.nodes), NodeIds(tail)[i], NodeIds(tail)[j])
  {
    VisitsInOrder(setup, o);
    VisitsOfParts(head + [failed], tail);
    NodeIdsOfSum(head, [failed]);
    assert NodeIds([failed]) == [failed.nodeId];
    InOrderPrefix(o, NodeIds(head), [failed.nodeId]);
    CompletedInOrder(setup.nodes, o, head);
    ReverseKeepsDescendantsFirst(Successors(setup.nodes), o, CastsCompleted(setup.nodes, head));
  }

  ghost predicate PreconditionsHold(node: Node, predResults: seq<CastResult>) {
    var pre := EvaluateAll(node.preconditions, PreContext(predResults));
    pre.Some? && AllHold(pre.value)
  }

  lemma SilentVisit(node: Node, predResults: seq<CastResult>, attempt: Oracle, branchId: string)
    requires ValidNode(node)
    ensures var visit := VisitNode(node, predResults, attempt, branchId);
      !visit.Aborted? ==>
        (ReceiptsOf(node.id, visit) == [] <==>
          node.kind == Merge && predResults == [] && PreconditionsHold(node, predResults))
  {
  }

  /** The outcomes behind a completed run. */
  lemma OutcomesOf(setup: Setup, o: seq<string>, id: string) returns (f: map<string, OI.Outcome>)
    requires OI.GraphSetup(setup) && OI.OrderOf(setup, o) && forall id :: id in o ==> id in setup.nodes
    requires Run(setup, o).halt == Going && id in setup.nodes
    ensures f.Keys == setup.nodes.Keys && !OI.Stops(f[id])
    ensures id in Run(setup, o).blocked <==> f[id] == OI.Blocked
    ensures OI.ResultIn(f[id]) == if id in Run(setup, o).results then Some(Run(setup, o).results[id]) else None
    ensures f[id].Visited? ==>
      f[id].visit == VisitNode(setup.nodes[id], PredResults(setup.predecessors[id], Run(setup, o).results),
                               setup.attempt, setup.branchId)
    ensures forall r :: r in Run(setup, o).receipts
                   <==> r.nodeId in f && OI.OutcomeReceipts(r.nodeId, f[r.nodeId]) == [r]
  {
    f := OI.Meaning(setup, o);
    OI.OrderInNodes(setup, o);
    OI.MeaningSolves(setup, o);
    OI.CompletedRun(setup, o, f);
    OI.RunComputesSolution(setup, o, f);
    forall p | p in setup.predecessors[id] ensures p in o {
      MirrorsEdges(Successors(setup.nodes), setup.predecessors, p, id);
    }
    OI.PredResultsFromOutcomes(setup.predecessors[id], f, o);
    assert f[id] == OI.Local(setup, f, id);
  }

  /** In a completed run a node has no receipt exactly when it was blocked or is a
      merge node, its preconditions met, none of whose predecessors has a result. */
  lemma MissingReceipts(setup: Setup, o: seq<string>, id: string)
    requires OI.GraphSetup(setup) && OI.OrderOf(setup, o) && forall id :: id in o ==> id in setup.nodes
    requires Run(setup, o).halt == Going && id in setup.nodes
    ensures var predResults := PredResults(setup.predecessors[id], Run(setup, o).results);
      id !in NodeIds(Run(setup, o).receipts) <==>
        || id in Run(setup, o).blocked
        || (setup.nodes[id].kind == Merge && predResults == [] && PreconditionsHold(setup.nodes[id], predResults))
  {
    var f := OutcomesOf(setup, o, id);
    var predResults := PredResults(setup.predecessors[id], Run(setup, o).results);
    SilentVisit(setup.nodes[id], predResults, setup.attempt, setup.branchId);
    ReceiptOfNode(Run(setup, o).receipts, f, setup.nodes, id);
    BlockedNeverExecutes(setup, o);
  }

  lemma ReceiptOfNode(receipts: seq<Receipt>, f: map<string, OI.Outcome>, nodes: map<string, Node>, id: string)
    requires f.Keys == nodes.Keys && id in nodes
    requires forall r :: r in receipts <==> r.nodeId in f && OI.OutcomeReceipts(r.nodeId, f[r.nodeId]) == [r]
    ensures id in NodeIds(receipts) <==> OI.OutcomeReceipts(id, f[id]) != []
  {
    if id in NodeIds(receipts) {
      var i :| 0 <= i < |receipts| && NodeIds(receipts)[i] == id;
      assert receipts[i] in receipts;
    }
    if OI.OutcomeReceipts(id, f[id]) != [] {
      var r := OI.OutcomeReceipts(id, f[id])[0];
      assert OI.OutcomeReceipts(id, f[id]) == [r] && r.nodeId == id;
      assert r in receipts;
      var i :| 0 <= i < |receipts| && receipts[i] == r;
      assert NodeIds(receipts)[i] == id;
    }
  }
}
