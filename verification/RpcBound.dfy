/** The failover bound, read off the steps of a run: which attempts a call starts, which of them fail,
    and when it may give up. */
module RpcBound {
  import opened RpcFailover
  import opened RpcRuns

  // ---------- What the steps of a run do for one call ----------

  /** The indices below k of nodes that count a request more in `after` than in `before`, in ascending order. */
  function Counted(before: seq<Node>, after: seq<Node>, k: nat): seq<nat> {
    if k == 0 then []
    else
      var i := k - 1;
      Counted(before, after, i)
      + if i < |before| && i < |after| && before[i].totalRequests < after[i].totalRequests then [i] else []
  }

  predicate InEmergency(m: Manager, c: Call) { c in m.calls && m.calls[c].Emergency? }

  /** The step puts call c into its emergency retry on node i. */
  predicate RetriesOn(m: Manager, s: Step, c: Call, i: nat) {
    !InEmergency(m, c) && InEmergency(Next(m, s), c) && Next(m, s).calls[c].node == i
  }

  /** The step fails the emergency retry of call c on node i. */
  predicate FailsRetryOn(m: Manager, s: Step, c: Call, i: nat) {
    s.Fail? && s.c == c && AwaitsEmergency(m, c) && m.calls[c].node == i
  }

  /** What the steps of a run did for one call: the nodes it found when it began, the nodes on which it had a request
      counted and those on which such an attempt failed, the emergency retries it started and those that failed. */
  datatype History = History(seen: seq<Node>, started: seq<nat>, failures: seq<nat>,
                             retries: seq<nat>, failedRetries: seq<nat>)

  const NOTHING := History([], [], [], [], [])

  function Extended(h: History, m: Manager, s: Step): History {
    var c := s.c;
    History(
      if s.Begin? && c !in m.calls then Reincorporate(m.nodes, s.now) else h.seen,
      h.started + Counted(m.nodes, Next(m, s).nodes, |m.nodes|),
      h.failures + (if s.Fail? && Awaits(m, c) then [Current(m, c)] else []),
      h.retries + (if !InEmergency(m, c) && InEmergency(Next(m, s), c) then [Next(m, s).calls[c].node] else []),
      h.failedRetries + (if s.Fail? && AwaitsEmergency(m, c) then [m.calls[c].node] else []))
  }

  function HistoryOf(nodes: seq<Node>, steps: seq<Step>, c: Call): History {
    if steps == [] then NOTHING
    else
      var front, s := steps[..|steps| - 1], steps[|steps| - 1];
      var h := HistoryOf(nodes, front, c);
      if s.c == c then Extended(h, Exec(Start(nodes), front), s) else h
  }

  // ---------- What it comes to ----------

  lemma {:induction false} NoneCounted(before: seq<Node>, after: seq<Node>, k: nat)
    requires |before| == |after|
    requires forall j :: 0 <= j < |before| ==> before[j].totalRequests == after[j].totalRequests
    ensures Counted(before, after, k) == []
  {
    if k > 0 { NoneCounted(before, after, k - 1); }
  }

  lemma {:induction false} OneCounted(before: seq<Node>, after: seq<Node>, k: nat, i: nat)
    requires i < |before| == |after| && before[i].totalRequests < after[i].totalRequests
    requires forall j :: 0 <= j < |before| && j != i ==> before[j].totalRequests == after[j].totalRequests
    ensures Counted(before, after, k) == if i < k then [i] else []
  {
    if k > 0 { OneCounted(before, after, k - 1, i); }
  }

  /** The nodes of the list are nodes the call found healthy, each once, better tiers first. */
  ghost predicate AreCandidates(seen: seq<Node>, s: seq<nat>, n: nat) {
    && |seen| == n && Below(s, n) && Distinct(s) && InTierOrder(seen, s)
    && forall k :: 0 <= k < |s| ==> seen[s[k]].healthy
  }

  /** The list holds every node the call found healthy. */
  predicate CoversHealthy(seen: seq<Node>, s: seq<nat>) {
    forall i: nat :: i < |seen| && seen[i].healthy ==> i in s
  }

  /** Every attempt was made and failed: on all nodes found healthy, in order. */
  ghost predicate Exhausted(h: History, n: nat) {
    AreCandidates(h.seen, h.started, n) && CoversHealthy(h.seen, h.started) && h.failures == h.started
  }

  /** Where a call stands decides what its steps have done. */
  ghost predicate Fits(p: Phase, h: History, n: nat) {
    match p
    case Trying(candidates, pos) =>
      && pos < |candidates| && Below(candidates, n)
      && AreCandidates(h.seen, candidates, n) && CoversHealthy(h.seen, candidates)
      && h.started == candidates[..pos + 1] && h.failures == candidates[..pos]
      && h.retries == h.failedRetries == []
    case Emergency(node) =>
      node < n && Exhausted(h, n) && |h.started| < n && h.retries == [node] && h.failedRetries == []
    case Succeeded =>
      && AreCandidates(h.seen, h.started, n)
      && (h.retries == [] ==> h.started != [])
      && (h.retries != [] ==> |h.retries| == 1 && |h.started| < n && Exhausted(h, n))
    case Failed =>
      && Exhausted(h, n) && h.failedRetries == h.retries
      && |h.retries| == (if |h.started| < n then 1 else 0)
  }

  lemma PrefixAreCandidates(seen: seq<Node>, s: seq<nat>, k: nat, n: nat)
    requires AreCandidates(seen, s, n) && k <= |s|
    ensures AreCandidates(seen, s[..k], n)
  {
  }

  predicate SameRequests(a: seq<Node>, b: seq<Node>) {
    |a| == |b| && forall j :: 0 <= j < |a| ==> a[j].totalRequests == b[j].totalRequests
  }

  lemma TryFromCounts(m: Manager, c: Call, candidates: seq<nat>, pos: nat, before: seq<Node>)
    requires |m.nodes| > 0 && SameRequests(before, m.nodes) && Below(candidates, |m.nodes|)
    ensures Counted(before, TryFrom(m, c, candidates, pos).nodes, |before|)
         == if pos < |candidates| then [candidates[pos]] else []
  {
    if pos < |candidates| {
      OneCounted(before, TryFrom(m, c, candidates, pos).nodes, |before|, candidates[pos]);
    } else {
      NoneCounted(before, TryFrom(m, c, candidates, pos).nodes, |before|);
    }
  }

  /** The phase in which the next attempt starts, or the end, fits the history that goes with it. */
  lemma TryFromFits(m: Manager, c: Call, candidates: seq<nat>, pos: nat, h: History, g: History)
    requires |m.nodes| > 0 && Below(candidates, |m.nodes|) && pos <= |candidates|
    requires AreCandidates(h.seen, candidates, |m.nodes|) && CoversHealthy(h.seen, candidates)
    requires h.started == h.failures == candidates[..pos] && h.retries == h.failedRetries == []
    requires var p := TryFrom(m, c, candidates, pos).calls[c];
      g == h.(started := h.started + (if pos < |candidates| then [candidates[pos]] else []),
              retries := if p.Emergency? then [p.node] else [])
    ensures Fits(TryFrom(m, c, candidates, pos).calls[c], g, |m.nodes|)
  {
    if pos < |candidates| {
      assert candidates[..pos + 1] == candidates[..pos] + [candidates[pos]];
    } else {
      assert candidates[..pos] == candidates;
      assert g.started == candidates;
      DistinctBelowIsShort(candidates, |m.nodes|);
    }
  }

  /** What a call finds: its candidates are all the healthy nodes. */
  lemma FoundCandidates(nodes: seq<Node>, cursor: nat)
    ensures AreCandidates(nodes, Candidates(nodes, cursor), |nodes|)
    ensures CoversHealthy(nodes, Candidates(nodes, cursor))
  {
    CandidatesAreHealthyInTierOrder(nodes, cursor);
    var s := Candidates(nodes, cursor);
    forall k | 0 <= k < |s| ensures nodes[s[k]].healthy { assert s[k] in s; }
  }

  lemma LiftingCountsNothing(nodes: seq<Node>, now: Time)
    ensures SameRequests(nodes, Reincorporate(nodes, now))
  {
    forall j | 0 <= j < |nodes| ensures nodes[j].totalRequests == Reincorporate(nodes, now)[j].totalRequests {
      assert Reincorporate(nodes, now)[j] == Reincorporated(nodes[j], now);
    }
  }

  lemma FirstHistory(m: Manager, s: Step, t: Manager)
    requires s.Begin? && s.c !in m.calls && t == Next(m, s) && s.c in t.calls
    ensures Extended(NOTHING, m, s)
         == History(Reincorporate(m.nodes, s.now), Counted(m.nodes, t.nodes, |m.nodes|), [],
                    if t.calls[s.c].Emergency? then [t.calls[s.c].node] else [], [])
  {
  }

  lemma BeginFits(m: Manager, s: Step)
    requires s.Begin? && s.c !in m.calls && |m.nodes| > 0
    ensures s.c in Next(m, s).calls && Fits(Next(m, s).calls[s.c], Extended(NOTHING, m, s), |m.nodes|)
  {
    var lifted := m.(nodes := Reincorporate(m.nodes, s.now));
    var candidates := Candidates(lifted.nodes, m.cursor);
    BeginIsTryFrom(m, s.c, s.now, lifted);
    FirstHistory(m, s, TryFrom(lifted, s.c, candidates, 0));
    FoundCandidates(lifted.nodes, m.cursor);
    LiftingCountsNothing(m.nodes, s.now);
    TryFromCounts(lifted, s.c, candidates, 0, m.nodes);
    TryFromFits(lifted, s.c, candidates, 0, NOTHING.(seen := lifted.nodes), Extended(NOTHING, m, s));
  }

  lemma FailureFits(m: Manager, s: Step, h: History)
    requires s.Fail? && Awaits(m, s.c) && Fits(m.calls[s.c], h, |m.nodes|)
    ensures s.c in Next(m, s).calls && Fits(Next(m, s).calls[s.c], Extended(h, m, s), |m.nodes|)
  {
    var Trying(candidates, pos) := m.calls[s.c];
    var i := candidates[pos];
    var mid := SetNode(m, i, AfterFailure(m.nodes[i], s.until));
    var failed := h.(failures := h.failures + [i]);
    assert candidates[..pos + 1] == candidates[..pos] + [i];
    TryFromCounts(mid, s.c, candidates, pos + 1, m.nodes);
    TryFromFits(mid, s.c, candidates, pos + 1, failed, Extended(h, m, s));
  }

  lemma AnswerFits(m: Manager, s: Step, h: History)
    requires s.Succeed? && Awaits(m, s.c) && Fits(m.calls[s.c], h, |m.nodes|)
    ensures s.c in Next(m, s).calls && Fits(Next(m, s).calls[s.c], Extended(h, m, s), |m.nodes|)
  {
    NoneCounted(m.nodes, Next(m, s).nodes, |m.nodes|);
    PrefixAreCandidates(h.seen, m.calls[s.c].candidates, m.calls[s.c].pos + 1, |m.nodes|);
    var g := Extended(h, m, s);
    assert g.started == h.started && g.retries == h.retries;
  }

  lemma RetryFits(m: Manager, s: Step, h: History)
    requires !s.Begin? && AwaitsEmergency(m, s.c) && Fits(m.calls[s.c], h, |m.nodes|)
    ensures s.c in Next(m, s).calls && Fits(Next(m, s).calls[s.c], Extended(h, m, s), |m.nodes|)
  {
    NoneCounted(m.nodes, Next(m, s).nodes, |m.nodes|);
    var g := Extended(h, m, s);
    assert g.started == h.started && g.failures == h.failures && g.retries == h.retries;
  }

  lemma IdleStep(m: Manager, s: Step, h: History)
    requires Next(m, s) == m && (s.Begin? ==> s.c in m.calls)
    requires !s.Begin? ==> !Awaits(m, s.c) && !AwaitsEmergency(m, s.c)
    ensures Extended(h, m, s) == h
  {
    NoneCounted(m.nodes, m.nodes, |m.nodes|);
  }

  ghost predicate FitsAt(m: Manager, h: History, c: Call) {
    if c in m.calls then Fits(m.calls[c], h, |m.nodes|) else h == NOTHING
  }

  /** A step of call c keeps its phase and its history together. */
  lemma OwnStepFits(m: Manager, s: Step, h: History)
    requires |m.nodes| > 0 && FitsAt(m, h, s.c)
    ensures FitsAt(Next(m, s), Extended(h, m, s), s.c) && |Next(m, s).nodes| == |m.nodes|
  {
    if s.Begin? && s.c !in m.calls {
      BeginFits(m, s);
    } else if !s.Begin? && Awaits(m, s.c) {
      if s.Fail? { FailureFits(m, s, h); } else { AnswerFits(m, s, h); }
    } else if !s.Begin? && AwaitsEmergency(m, s.c) {
      RetryFits(m, s, h);
    } else {
      IdleStep(m, s, h);
    }
  }

  lemma OtherStep(m: Manager, s: Step, c: Call)
    requires c != s.c
    ensures c in Next(m, s).calls <==> c in m.calls
    ensures c in m.calls ==> Next(m, s).calls[c] == m.calls[c]
  {
  }

  lemma {:induction false} RunFits(nodes: seq<Node>, steps: seq<Step>, c: Call)
    requires FreshNodes(nodes) && |nodes| > 0
    ensures FitsAt(Exec(Start(nodes), steps), HistoryOf(nodes, steps, c), c)
    ensures |Exec(Start(nodes), steps).nodes| == |nodes|
  {
    HealthBookkeeping(nodes, steps);
    if steps != [] {
      var front, s := steps[..|steps| - 1], steps[|steps| - 1];
      HealthBookkeeping(nodes, front);
      RunFits(nodes, front, c);
      if s.c == c {
        OwnStepFits(Exec(Start(nodes), front), s, HistoryOf(nodes, front, c));
      } else {
        OtherStep(Exec(Start(nodes), front), s, c);
      }
    }
  }

  // ---------- The bound ----------

  /** In every run over n > 0 nodes, the steps of a call that has begun start at least one and at most n attempts:
      first on nodes it found healthy, each at most once and better tiers first, then at most one emergency retry,
      and that only after an attempt failed on every node found healthy. */
  lemma AttemptsAreBounded(nodes: seq<Node>, steps: seq<Step>, c: Call)
    requires FreshNodes(nodes) && |nodes| > 0
    requires c in Exec(Start(nodes), steps).calls
    ensures var h := HistoryOf(nodes, steps, c);
      && 1 <= |h.started| + |h.retries| <= |nodes|
      && AreCandidates(h.seen, h.started, |nodes|)
      && |h.retries| <= 1
      && (h.retries != [] ==> h.failures == h.started && CoversHealthy(h.seen, h.failures))
  {
    RunFits(nodes, steps, c);
    var p, h := Exec(Start(nodes), steps).calls[c], HistoryOf(nodes, steps, c);
    if p.Trying? { PrefixAreCandidates(h.seen, p.candidates, p.pos + 1, |nodes|); }
    DistinctBelowIsShort(h.started, |nodes|);
  }

  /** A node in the list of failures was failed on by some step of the run. */
  lemma {:induction false} FailureHappened(nodes: seq<Node>, steps: seq<Step>, c: Call, i: nat)
    requires i in HistoryOf(nodes, steps, c).failures
    ensures exists k :: 0 <= k < |steps| && steps[k].c == c && FailsOn(Exec(Start(nodes), steps[..k]), steps[k], i)
  {
    var front, last := steps[..|steps| - 1], |steps| - 1;
    if i in HistoryOf(nodes, front, c).failures {
      FailureHappened(nodes, front, c, i);
      var k :| 0 <= k < |front| && front[k].c == c && FailsOn(Exec(Start(nodes), front[..k]), front[k], i);
      assert steps[k] == front[k] && steps[..k] == front[..k];
    } else {
      assert FailsOn(Exec(Start(nodes), steps[..last]), steps[last], i);
    }
  }

  ghost predicate RetryFailed(nodes: seq<Node>, steps: seq<Step>, c: Call, i: nat) {
    exists k :: 0 <= k < |steps| && FailsRetryOn(Exec(Start(nodes), steps[..k]), steps[k], c, i)
  }

  lemma {:induction false} RetryFailureHappened(nodes: seq<Node>, steps: seq<Step>, c: Call, i: nat)
    requires i in HistoryOf(nodes, steps, c).failedRetries
    ensures RetryFailed(nodes, steps, c, i)
  {
    var front, last := steps[..|steps| - 1], |steps| - 1;
    if i in HistoryOf(nodes, front, c).failedRetries {
      RetryFailureHappened(nodes, front, c, i);
      var k :| 0 <= k < |front| && FailsRetryOn(Exec(Start(nodes), front[..k]), front[k], c, i);
      assert steps[k] == front[k] && steps[..k] == front[..k];
    } else {
      assert FailsRetryOn(Exec(Start(nodes), steps[..last]), steps[last], c, i);
    }
  }

  predicate HasLeastCooldown(nodes: seq<Node>, i: nat) {
    i < |nodes| && forall j :: 0 <= j < |nodes| ==> nodes[i].cooldownUntil <= nodes[j].cooldownUntil
  }

  /** A retry goes to the first node whose cooldown ends soonest at that moment. */
  lemma RetryGoesToSoonest(m: Manager, s: Step, c: Call, i: nat)
    requires RetriesOn(m, s, c, i)
    ensures |Next(m, s).nodes| > 0 && i == Soonest(Next(m, s).nodes, |Next(m, s).nodes|)
  {
    if s.Begin? && s.c !in m.calls && |m.nodes| > 0 {
      BeginIsTryFrom(m, s.c, s.now, m.(nodes := Reincorporate(m.nodes, s.now)));
    } else if s.Fail? && Awaits(m, s.c) {
      assert Next(m, s) == OnFailure(m, s.c, s.until);
    } else {
      assert InEmergency(Next(m, s), c) ==> InEmergency(m, c);
    }
  }

  /** Some step of the run sent call c to node i for its retry, when no cooldown was less than that of node i. */
  ghost predicate RetriedAtLeastCooldown(nodes: seq<Node>, steps: seq<Step>, c: Call, i: nat) {
    exists k :: 0 <= k < |steps| && RetriesOn(Exec(Start(nodes), steps[..k]), steps[k], c, i)
      && HasLeastCooldown(Next(Exec(Start(nodes), steps[..k]), steps[k]).nodes, i)
  }

  lemma {:induction false} RetryHappened(nodes: seq<Node>, steps: seq<Step>, c: Call, i: nat)
    requires i in HistoryOf(nodes, steps, c).retries
    ensures RetriedAtLeastCooldown(nodes, steps, c, i)
  {
    var front, last := steps[..|steps| - 1], |steps| - 1;
    if i in HistoryOf(nodes, front, c).retries {
      RetryHappened(nodes, front, c, i);
      var k :| 0 <= k < |front| && RetriesOn(Exec(Start(nodes), front[..k]), front[k], c, i)
        && HasLeastCooldown(Next(Exec(Start(nodes), front[..k]), front[k]).nodes, i);
      assert steps[k] == front[k] && steps[..k] == front[..k];
    } else {
      assert RetriesOn(Exec(Start(nodes), steps[..last]), steps[last], c, i);
      RetryGoesToSoonest(Exec(Start(nodes), steps[..last]), steps[last], c, i);
    }
  }

  /** In every run over n > 0 nodes, a call gives up only after some step failed its attempt on each node it found
      healthy, and, when those are fewer than n, after a step sent it to a node of least cooldown and another step
      failed that retry too. */
  lemma FailsOnlyAfterAll(nodes: seq<Node>, steps: seq<Step>, c: Call)
    requires FreshNodes(nodes) && |nodes| > 0
    requires c in Exec(Start(nodes), steps).calls && Exec(Start(nodes), steps).calls[c].Failed?
    ensures var h := HistoryOf(nodes, steps, c);
      && |h.seen| == |nodes|
      && (forall i: nat :: i < |nodes| && h.seen[i].healthy ==>
            exists k :: 0 <= k < |steps| && steps[k].c == c && FailsOn(Exec(Start(nodes), steps[..k]), steps[k], i))
      && (|h.started| < |nodes| ==>
            exists i :: RetriedAtLeastCooldown(nodes, steps, c, i) && RetryFailed(nodes, steps, c, i))
  {
    RunFits(nodes, steps, c);
    var h := HistoryOf(nodes, steps, c);
    forall i: nat | i < |nodes| && h.seen[i].healthy
      ensures exists k :: 0 <= k < |steps| && steps[k].c == c && FailsOn(Exec(Start(nodes), steps[..k]), steps[k], i)
    {
      FailureHappened(nodes, steps, c, i);
    }
    if |h.started| < |nodes| {
      RetryHappened(nodes, steps, c, h.retries[0]);
      RetryFailureHappened(nodes, steps, c, h.retries[0]);
    }
  }

  // ---------- Where the emergency retry goes ----------

  /** In every run the emergency retry goes to a cooling node exactly when no node is healthy at that moment: while
      one is, the retry goes to a healthy node, although cooling nodes exist. */
  lemma EmergencyNodeIsCoolingIffAllAre(nodes: seq<Node>, steps: seq<Step>, s: Step, c: Call, i: nat)
    requires FreshNodes(nodes) && RetriesOn(Exec(Start(nodes), steps), s, c, i)
    ensures var after := Next(Exec(Start(nodes), steps), s).nodes;
      i < |after| && (!after[i].healthy <==> forall j :: 0 <= j < |after| ==> !after[j].healthy)
  {
    var m := Exec(Start(nodes), steps);
    RetryGoesToSoonest(m, s, c, i);
    HealthBookkeeping(nodes, steps);
    StepKeepsSound(m, s);
    var after := Next(m, s).nodes;
    assert Sound(after[i]);
    if j :| 0 <= j < |after| && after[j].healthy {
      assert Sound(after[j]) && after[i].cooldownUntil <= after[j].cooldownUntil;
    }
  }

  /** With one PRIMARY and one SECONDARY node, the candidates are whichever of them are healthy, in that order. */
  lemma CandidatesOfTwo(nodes: seq<Node>, cursor: nat)
    requires |nodes| == 2 && nodes[0].tier == PRIMARY && nodes[1].tier == SECONDARY
    ensures Candidates(nodes, cursor) == (if nodes[0].healthy then [0] else []) + (if nodes[1].healthy then [1] else [])
  {
    var s := Candidates(nodes, cursor);
    CandidatesAreHealthyInTierOrder(nodes, cursor);
    assert TierIndices(nodes, PRIMARY, 1) == if nodes[0].healthy then [0] else [];
    assert TierIndices(nodes, SECONDARY, 1) == [];
    assert TierIndices(nodes, FALLBACK, 1) == [];
  }

  lemma ExecSnoc(m: Manager, steps: seq<Step>, s: Step)
    ensures Exec(m, steps + [s]) == Next(Exec(m, steps), s)
  {
    assert (steps + [s])[..|steps|] == steps;
  }

  /** A pool of two fresh nodes. */
  function TwoNodes(): (nodes: seq<Node>)
    ensures FreshNodes(nodes)
  {
    [Node(PRIMARY, true, 0, 0, 0, 0, 0), Node(SECONDARY, true, 0, 0, 0, 0, 0)]
  }

  /** Both nodes are there, the second one healthy and without a cooldown. */
  predicate TwoLeft(m: Manager) {
    && |m.nodes| == 2 && m.nodes[0].tier == PRIMARY && m.nodes[1].tier == SECONDARY
    && m.nodes[1].healthy && m.nodes[1].cooldownUntil == 0 && m.nodes[1].consecutiveFailures == 0
  }

  lemma CallWaits(m: Manager, c: Call)
    requires TwoLeft(m) && c !in m.calls && (m.nodes[0].healthy || 1 < m.nodes[0].cooldownUntil)
    ensures var n, candidates := Next(m, Begin(c, 1)), if m.nodes[0].healthy then [0, 1] else [1];
      && TwoLeft(n) && n.calls == m.calls[c := Trying(candidates, 0)] && n.nodes[0].healthy == m.nodes[0].healthy
      && n.nodes[0].consecutiveFailures == m.nodes[0].consecutiveFailures
      && n.nodes[0].cooldownUntil == m.nodes[0].cooldownUntil
  {
    assert Reincorporate(m.nodes, 1) == m.nodes;
    CandidatesOfTwo(m.nodes, m.cursor);
    assert Candidates(m.nodes, m.cursor) == if m.nodes[0].healthy then [0, 1] else [1];
  }

  lemma CallMovesOn(m: Manager, c: Call)
    requires TwoLeft(m) && c in m.calls && m.calls[c] == Trying([0, 1], 0)
    ensures var n := Next(m, Fail(c, 9));
      && TwoLeft(n) && n.calls == m.calls[c := Trying([0, 1], 1)]
      && n.nodes[0].consecutiveFailures == m.nodes[0].consecutiveFailures + 1
      && (n.nodes[0].consecutiveFailures >= 3 ==> !n.nodes[0].healthy && n.nodes[0].cooldownUntil == 9)
      && (n.nodes[0].consecutiveFailures < 3 ==> n.nodes[0].healthy == m.nodes[0].healthy)
  {
  }

  /** Three calls wait for the first node and then fail on it, which starts its cooldown. */
  lemma FirstNodeCools() returns (steps: seq<Step>, m: Manager)
    ensures m == Exec(Start(TwoNodes()), steps) && TwoLeft(m) && 3 !in m.calls
    ensures !m.nodes[0].healthy && m.nodes[0].cooldownUntil == 9
  {
    m, steps := Start(TwoNodes()), [];
    for c := 0 to 3
      invariant m == Exec(Start(TwoNodes()), steps) && TwoLeft(m)
      invariant m.nodes[0].healthy && m.nodes[0].consecutiveFailures == 0
      invariant forall d: nat :: d in m.calls <==> d < c
      invariant forall d: nat :: d < c ==> m.calls[d] == Trying([0, 1], 0)
    {
      CallWaits(m, c);
      ExecSnoc(Start(TwoNodes()), steps, Begin(c, 1));
      m, steps := Next(m, Begin(c, 1)), steps + [Begin(c, 1)];
    }
    for c := 0 to 3
      invariant m == Exec(Start(TwoNodes()), steps) && TwoLeft(m) && m.nodes[0].consecutiveFailures == c
      invariant c == 3 ==> !m.nodes[0].healthy && m.nodes[0].cooldownUntil == 9
      invariant forall d: nat :: d in m.calls <==> d < 3
      invariant forall d: nat :: c <= d < 3 ==> m.calls[d] == Trying([0, 1], 0)
    {
      CallMovesOn(m, c);
      ExecSnoc(Start(TwoNodes()), steps, Fail(c, 9));
      m, steps := Next(m, Fail(c, 9)), steps + [Fail(c, 9)];
    }
  }

  /** In some run the emergency retry goes to the very node that has just failed, while the other one is cooling. */
  lemma RetryOnTheNodeThatFailed() returns (steps: seq<Step>, s: Step)
    ensures FreshNodes(TwoNodes())
    ensures var m := Exec(Start(TwoNodes()), steps);
      |m.nodes| == 2 && FailsOn(m, s, 1) && RetriesOn(m, s, s.c, 1) && !Next(m, s).nodes[0].healthy
  {
    var m;
    steps, m := FirstNodeCools();
    CallWaits(m, 3);
    ExecSnoc(Start(TwoNodes()), steps, Begin(3, 1));
    m, steps, s := Next(m, Begin(3, 1)), steps + [Begin(3, 1)], Fail(3, 9);
    var failed := SetNode(m, 1, AfterFailure(m.nodes[1], 9));
    assert Next(m, s) == TryFrom(failed, 3, [1], 1);
    assert Soonest(failed.nodes, 1) == 0 && Soonest(failed.nodes, 2) == 1;
  }
}
