/** What every run of concurrent calls keeps: node health and request counts. */
module RpcRuns {
  import opened RpcFailover

  // ---------- Health bookkeeping ----------

  /** UNHEALTHY exactly from the third consecutive failure, and cooling exactly while UNHEALTHY. */
  predicate Sound(node: Node) {
    && (!node.healthy <==> node.consecutiveFailures >= MAX_CONSECUTIVE_FAILURES)
    && (node.healthy <==> node.cooldownUntil == 0)
  }

  predicate SoundNodes(nodes: seq<Node>) { forall i :: 0 <= i < |nodes| ==> Sound(nodes[i]) }

  predicate SameTiers(a: seq<Node>, b: seq<Node>) {
    |a| == |b| && forall i :: 0 <= i < |a| ==> a[i].tier == b[i].tier
  }

  lemma TryFromKeepsSound(m: Manager, c: Call, candidates: seq<nat>, pos: nat)
    requires Below(candidates, |m.nodes|) && |m.nodes| > 0 && SoundNodes(m.nodes)
    ensures SoundNodes(TryFrom(m, c, candidates, pos).nodes) && SameTiers(m.nodes, TryFrom(m, c, candidates, pos).nodes)
  {
  }

  lemma StepKeepsSound(m: Manager, s: Step)
    requires SoundNodes(m.nodes)
    ensures SoundNodes(Next(m, s).nodes) && SameTiers(m.nodes, Next(m, s).nodes)
  {
    if s.Begin? && |m.nodes| > 0 {
      var nodes := Reincorporate(m.nodes, s.now);
      CandidatesAreHealthyInTierOrder(nodes, m.cursor);
      TryFromKeepsSound(m.(nodes := nodes), s.c, Candidates(nodes, m.cursor), 0);
    } else if s.Fail? && Awaits(m, s.c) {
      var i := Current(m, s.c);
      var mid := SetNode(m, i, AfterFailure(m.nodes[i], s.until));
      TryFromKeepsSound(mid, s.c, m.calls[s.c].candidates, m.calls[s.c].pos + 1);
    }
  }

  /** In every run of concurrent calls, each node is UNHEALTHY exactly when it has failed three times in a row. */
  lemma {:induction false} HealthBookkeeping(nodes: seq<Node>, steps: seq<Step>)
    requires FreshNodes(nodes)
    ensures SoundNodes(Exec(Start(nodes), steps).nodes)
    ensures SameTiers(nodes, Exec(Start(nodes), steps).nodes)
  {
    if steps != [] {
      HealthBookkeeping(nodes, steps[..|steps| - 1]);
      StepKeepsSound(Exec(Start(nodes), steps[..|steps| - 1]), steps[|steps| - 1]);
    }
  }

  /** The step fails the attempt in flight on node i; it answers node i, by an attempt or an emergency retry;
      it lifts a cooldown of node i that ran out. */
  predicate FailsOn(m: Manager, s: Step, i: nat) { s.Fail? && Awaits(m, s.c) && Current(m, s.c) == i }

  predicate AnswersOn(m: Manager, s: Step, i: nat) {
    s.Succeed? && ((Awaits(m, s.c) && Current(m, s.c) == i) || (AwaitsEmergency(m, s.c) && m.calls[s.c].node == i))
  }

  predicate Lifts(m: Manager, s: Step, i: nat) {
    s.Begin? && s.c !in m.calls && i < |m.nodes| && !m.nodes[i].healthy && s.now >= m.nodes[i].cooldownUntil
  }

  /** How many attempts on node i failed in the run since it last answered or had its cooldown lifted. */
  function Streak(nodes: seq<Node>, steps: seq<Step>, i: nat): nat {
    if steps == [] then 0
    else
      var front, s := steps[..|steps| - 1], steps[|steps| - 1];
      var m := Exec(Start(nodes), front);
      if AnswersOn(m, s, i) || Lifts(m, s, i) then 0
      else Streak(nodes, front, i) + if FailsOn(m, s, i) then 1 else 0
  }

  lemma StepStreak(m: Manager, s: Step, i: nat)
    requires SoundNodes(m.nodes) && i < |m.nodes|
    ensures |Next(m, s).nodes| == |m.nodes|
    ensures Next(m, s).nodes[i].consecutiveFailures
         == if AnswersOn(m, s, i) || Lifts(m, s, i) then 0
            else m.nodes[i].consecutiveFailures + if FailsOn(m, s, i) then 1 else 0
  {
    if s.Begin? && s.c !in m.calls {
      var nodes := Reincorporate(m.nodes, s.now);
      CandidatesAreHealthyInTierOrder(nodes, m.cursor);
      assert nodes[i] == Reincorporated(m.nodes[i], s.now);
    }
  }

  /** In every run, a node is UNHEALTHY exactly when its last three or more attempts failed with no answer and no
      lifted cooldown in between, whichever concurrent calls made them. */
  lemma {:induction false} UnhealthyIffThreeFailuresInARow(nodes: seq<Node>, steps: seq<Step>, i: nat)
    requires FreshNodes(nodes) && i < |nodes|
    ensures |Exec(Start(nodes), steps).nodes| == |nodes|
    ensures Exec(Start(nodes), steps).nodes[i].consecutiveFailures == Streak(nodes, steps, i)
    ensures !Exec(Start(nodes), steps).nodes[i].healthy <==> Streak(nodes, steps, i) >= MAX_CONSECUTIVE_FAILURES
  {
    HealthBookkeeping(nodes, steps);
    if steps != [] {
      UnhealthyIffThreeFailuresInARow(nodes, steps[..|steps| - 1], i);
      HealthBookkeeping(nodes, steps[..|steps| - 1]);
      StepStreak(Exec(Start(nodes), steps[..|steps| - 1]), steps[|steps| - 1], i);
    }
  }

  // ---------- Conservation of requests ----------

  /** Attempts on node i still waiting for an answer. */
  function InFlight(calls: map<Call, Phase>, i: nat): set<Call> {
    set c | c in calls && InFlightOn(calls, c, i)
  }

  function Settled(node: Node): nat { node.totalSuccesses + node.totalFailures }

  /** Every counted request is settled or in flight. */
  ghost predicate Balanced(m: Manager) {
    forall i :: 0 <= i < |m.nodes| ==> m.nodes[i].totalRequests == Settled(m.nodes[i]) + |InFlight(m.calls, i)|
  }

  function One(b: bool): nat { if b then 1 else 0 }

  lemma CardinalityMoves(before: set<Call>, after: set<Call>, c: Call)
    requires before - {c} == after - {c}
    ensures |after| == |before| + One(c in after) - One(c in before)
  {
    assert c in before ==> before == (before - {c}) + {c};
    assert c !in before ==> before == before - {c};
    assert c in after ==> after == (after - {c}) + {c};
    assert c !in after ==> after == after - {c};
  }

  /** Only the call whose phase is written moves in or out of flight. */
  lemma InFlightMoves(calls: map<Call, Phase>, c: Call, p: Phase, i: nat)
    ensures |InFlight(calls[c := p], i)|
         == |InFlight(calls, i)| + One(InFlightOn(calls[c := p], c, i)) - One(InFlightOn(calls, c, i))
  {
    var after := calls[c := p];
    forall d | d != c
      ensures d in InFlight(calls, i) <==> d in InFlight(after, i)
    {
      assert InFlightOn(calls, d, i) == InFlightOn(after, d, i);
    }
    CardinalityMoves(InFlight(calls, i), InFlight(after, i), c);
  }

  /** Writing one node and one phase keeps the balance when each node gains as many requests as it settles
      and puts in flight. */
  lemma WriteBalanced(m: Manager, nodes: seq<Node>, c: Call, p: Phase)
    requires Balanced(m) && |nodes| == |m.nodes|
    requires forall i :: 0 <= i < |nodes| ==>
      nodes[i].totalRequests - m.nodes[i].totalRequests
      == Settled(nodes[i]) - Settled(m.nodes[i])
         + One(InFlightOn(m.calls[c := p], c, i)) - One(InFlightOn(m.calls, c, i))
    ensures Balanced(m.(nodes := nodes, calls := m.calls[c := p]))
  {
    forall i | 0 <= i < |nodes|
      ensures nodes[i].totalRequests == Settled(nodes[i]) + |InFlight(m.calls[c := p], i)|
    {
      InFlightMoves(m.calls, c, p, i);
    }
  }

  lemma BeginBalanced(m: Manager, c: Call, now: Time)
    requires Balanced(m) && c !in m.calls && |m.nodes| > 0
    ensures Balanced(OnBegin(m, c, now))
  {
    var n := OnBegin(m, c, now);
    var nodes := Reincorporate(m.nodes, now);
    BeginIsTryFrom(m, c, now, m.(nodes := nodes));
    assert n == m.(nodes := n.nodes, calls := m.calls[c := n.calls[c]]);
    forall i | 0 <= i < |nodes|
      ensures Settled(n.nodes[i]) == Settled(m.nodes[i])
      ensures n.nodes[i].totalRequests == m.nodes[i].totalRequests + One(InFlightOn(n.calls, c, i))
    {
      assert nodes[i] == Reincorporated(m.nodes[i], now);
    }
    WriteBalanced(m, n.nodes, c, n.calls[c]);
  }

  lemma FailureBalanced(m: Manager, c: Call, until: Time)
    requires Balanced(m) && Awaits(m, c)
    ensures Balanced(OnFailure(m, c, until))
  {
    var n := OnFailure(m, c, until);
    WriteBalanced(m, n.nodes, c, n.calls[c]);
    assert n == m.(nodes := n.nodes, calls := m.calls[c := n.calls[c]]);
  }

  lemma SuccessBalanced(m: Manager, c: Call)
    requires Balanced(m) && Awaits(m, c)
    ensures Balanced(OnSuccess(m, c))
  {
    var n := OnSuccess(m, c);
    WriteBalanced(m, n.nodes, c, n.calls[c]);
  }

  lemma StepKeepsBalanced(m: Manager, s: Step)
    requires Balanced(m)
    ensures Balanced(Next(m, s))
  {
    if s.Begin? && s.c !in m.calls && |m.nodes| > 0 {
      BeginBalanced(m, s.c, s.now);
    } else if s.Succeed? && Awaits(m, s.c) {
      SuccessBalanced(m, s.c);
    } else if s.Fail? && Awaits(m, s.c) {
      FailureBalanced(m, s.c, s.until);
    } else if !s.Begin? && AwaitsEmergency(m, s.c) {
      WriteBalanced(m, Next(m, s).nodes, s.c, Next(m, s).calls[s.c]);
    }
  }

  /** In every run, requests = successes + failures + attempts in flight on every node; emergency retries count
      in none. */
  lemma {:induction false} RequestsAreConserved(nodes: seq<Node>, steps: seq<Step>)
    requires FreshNodes(nodes)
    ensures Balanced(Exec(Start(nodes), steps))
  {
    if steps == [] {
      assert forall i :: InFlight(map[], i) == {};
    } else {
      RequestsAreConserved(nodes, steps[..|steps| - 1]);
      StepKeepsBalanced(Exec(Start(nodes), steps[..|steps| - 1]), steps[|steps| - 1]);
    }
  }
}
