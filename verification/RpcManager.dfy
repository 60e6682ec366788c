/** The scheduler object: node records updated in place, one call run from start to end. */
module RpcManager {
  import opened RpcFailover
  import opened RpcRuns
  import opened RpcBound

  /** Every later call offers the node to its candidates exactly when `usable`, and the other nodes as before. */
  ghost predicate OffersAfter(before: seq<Node>, after: seq<Node>, i: nat, usable: bool) {
    forall cursor: nat, j: nat :: j < |before| ==>
      (j in Candidates(after, cursor) <==> if j == i then usable else j in Candidates(before, cursor))
  }

  lemma HealthDecidesOffers(before: seq<Node>, after: seq<Node>, i: nat)
    requires i < |before| == |after| && after == before[i := after[i]]
    ensures OffersAfter(before, after, i, after[i].healthy)
  {
    forall cursor: nat, j: nat | j < |before|
      ensures j in Candidates(after, cursor) <==> if j == i then after[i].healthy else j in Candidates(before, cursor)
    {
      CandidatesAreHealthyInTierOrder(before, cursor);
      CandidatesAreHealthyInTierOrder(after, cursor);
    }
  }

  class StellarRpcManager {
    var nodes: seq<Node>
    var roundRobinCursor: nat
    var activeNodeIndex: nat

    constructor (candidateNodes: seq<Node>)
      ensures nodes == candidateNodes && roundRobinCursor == 0 && activeNodeIndex == 0
    {
      nodes := candidateNodes;
      roundRobinCursor := 0;
      activeNodeIndex := 0;
    }

    ghost function View(calls: map<Call, Phase>): Manager
      reads this
    {
      Manager(nodes, roundRobinCursor, activeNodeIndex, calls)
    }

    /** Puts nodes whose cooldown ran out back into the pool. */
    method LiftCooldowns(now: Time)
      modifies this`nodes
      ensures nodes == Reincorporate(old(nodes), now)
    {
      for i := 0 to |nodes|
        invariant |nodes| == |old(nodes)|
        invariant forall k :: 0 <= k < i ==> nodes[k] == Reincorporated(old(nodes)[k], now)
        invariant forall k :: i <= k < |nodes| ==> nodes[k] == old(nodes)[k]
      {
        if !nodes[i].healthy && now >= nodes[i].cooldownUntil {
          nodes := nodes[i := nodes[i].(healthy := true, consecutiveFailures := 0, cooldownUntil := 0)];
        }
      }
    }

    method TierPass(tier: Tier) returns (indices: seq<nat>)
      ensures indices == TierCandidates(nodes, tier, roundRobinCursor)
    {
      var tierHealthy: seq<nat> := [];
      for i := 0 to |nodes|
        invariant tierHealthy == TierIndices(nodes, tier, i)
      {
        if nodes[i].tier == tier && nodes[i].healthy {
          tierHealthy := tierHealthy + [i];
        }
      }
      indices := [];
      for i := 0 to |tierHealthy|
        invariant |indices| == i
        invariant forall k :: 0 <= k < i ==> indices[k] == tierHealthy[(roundRobinCursor + k) % |tierHealthy|]
      {
        indices := indices + [tierHealthy[(roundRobinCursor + i) % |tierHealthy|]];
      }
    }

    method CollectCandidates() returns (indices: seq<nat>)
      ensures indices == Candidates(nodes, roundRobinCursor)
    {
      indices := TierPass(PRIMARY);
      var secondary := TierPass(SECONDARY);
      var fallback := TierPass(FALLBACK);
      indices := indices + secondary + fallback;
    }

    /** Start of the next attempt: counts a request, or picks the emergency node, or neither. */
    method StartAttempt(ghost m: Manager, ghost c: Call, candidates: seq<nat>, k: nat) returns (emergencyNode: nat)
      requires m == View(m.calls) && |nodes| > 0 && Below(candidates, |nodes|)
      modifies this`nodes
      ensures var n := TryFrom(m, c, candidates, k);
        && View(n.calls) == n
        && n.calls[c] == PhaseAt(m, candidates, k)
        && (|candidates| <= k && |candidates| < |nodes| ==> emergencyNode == Soonest(m.nodes, |m.nodes|))
      ensures |nodes| == |old(nodes)|
    {
      emergencyNode := 0;
      if k < |candidates| {
        var i := candidates[k];
        nodes := nodes[i := nodes[i].(totalRequests := nodes[i].totalRequests + 1)];
      } else if |candidates| < |nodes| {
        emergencyNode := Soonest(nodes, |nodes|);
      }
    }

    /** An answer puts its node back among the candidates of every later call, whatever other calls did to it
        meanwhile, and the next round starts one place further. */
    method AttemptSucceeded(ghost m: Manager, ghost c: Call, i: nat)
      requires m == View(m.calls) && Awaits(m, c) && Current(m, c) == i
      modifies this
      ensures View(OnSuccess(m, c).calls) == OnSuccess(m, c)
      ensures OffersAfter(old(nodes), nodes, i, true)
      ensures SoundNodes(old(nodes)) ==> SoundNodes(nodes)
      ensures roundRobinCursor < CURSOR_MODULUS && activeNodeIndex == i && |nodes| == |old(nodes)|
    {
      nodes := nodes[i := nodes[i].(healthy := true, consecutiveFailures := 0, cooldownUntil := 0,
                                    totalSuccesses := nodes[i].totalSuccesses + 1)];
      activeNodeIndex := i;
      roundRobinCursor := (roundRobinCursor + 1) % CURSOR_MODULUS;
      HealthDecidesOffers(old(nodes), nodes, i);
    }

    /** A failure takes its node out of the candidates of every later call exactly from the third in a row on. */
    method AttemptFailed(i: nat, until: Time)
      requires i < |nodes|
      modifies this`nodes
      ensures nodes == old(nodes)[i := AfterFailure(old(nodes)[i], until)]
      ensures SoundNodes(old(nodes)) ==> SoundNodes(nodes)
      ensures SoundNodes(old(nodes)) ==>
        OffersAfter(old(nodes), nodes, i, old(nodes)[i].consecutiveFailures + 1 < MAX_CONSECUTIVE_FAILURES)
    {
      var node := nodes[i];
      node := node.(totalFailures := node.totalFailures + 1, consecutiveFailures := node.consecutiveFailures + 1);
      if node.consecutiveFailures >= MAX_CONSECUTIVE_FAILURES {
        node := node.(healthy := false, cooldownUntil := until);
      }
      nodes := nodes[i := node];
      HealthDecidesOffers(old(nodes), nodes, i);
      assert SoundNodes(old(nodes)) ==> Sound(old(nodes)[i]);
    }

    /** Candidate k failed: settle it and start the next attempt. */
    method MoveOn(ghost m: Manager, ghost steps: seq<Step>, ghost c: Call, candidates: seq<nat>, k: nat, until: Time)
      returns (emergencyNode: nat, ghost n: Manager, ghost longer: seq<Step>)
      requires k < |candidates| && At(Exec(m, steps), c, candidates, k, 0)
      requires View(Exec(m, steps).calls) == Exec(m, steps)
      modifies this`nodes
      ensures longer == steps + [Fail(c, until)] && n == Exec(m, longer)
      ensures View(n.calls) == n && At(n, c, candidates, k + 1, emergencyNode) && |nodes| == |old(nodes)|
    {
      ghost var before := Exec(m, steps);
      AttemptFailed(candidates[k], until);
      ghost var failed := View(before.calls);
      emergencyNode := StartAttempt(failed, c, candidates, k + 1);
      ExecSnoc(m, steps, Fail(c, until));
      n, longer := TryFrom(failed, c, candidates, k + 1), steps + [Fail(c, until)];
    }

    /** The attempt loop, from the first candidate to a success or to the emergency choice. */
    method TryCandidates(ghost m: Manager, ghost c: Call, candidates: seq<nat>, firstEmergency: nat,
                         answers: seq<bool>, untils: seq<Time>)
      returns (success: bool, emergencyNode: nat, ghost steps: seq<Step>)
      requires At(m, c, candidates, 0, firstEmergency) && m == View(m.calls)
      modifies this
      ensures var n := Exec(m, steps);
        && View(n.calls) == n
        && (if success then c in n.calls && n.calls[c].Succeeded?
            else At(n, c, candidates, |candidates|, emergencyNode))
      ensures Follow(steps, c, answers, untils, success) && |steps| <= |candidates|
      ensures (!success ==> |steps| == |candidates|) && |nodes| == |old(nodes)|
    {
      emergencyNode := firstEmergency;
      steps := [];
      ghost var n := m;
      for k := 0 to |candidates|
        invariant At(n, c, candidates, k, emergencyNode) && n == View(n.calls) && |nodes| == |old(nodes)|
        invariant n == Exec(m, steps) && |steps| == k && Follow(steps, c, answers, untils, false)
      {
        FollowNext(steps, c, answers, untils);
        if Answered(answers, k) {
          AttemptSucceeded(n, c, candidates[k]);
          ExecSnoc(m, steps, Succeed(c));
          return true, 0, steps + [Succeed(c)];
        }
        emergencyNode, n, steps := MoveOn(m, steps, c, candidates, k, CooldownEnd(untils, k));
      }
      return false, emergencyNode, steps;
    }

    /** The emergency retry, or giving up when every node was a candidate. */
    method LastResort(ghost m: Manager, ghost c: Call, ghost candidates: seq<nat>, tried: nat, emergencyNode: nat,
                      answer: bool, ghost until: Time)
      returns (success: bool, ghost steps: seq<Step>)
      requires At(m, c, candidates, |candidates|, emergencyNode) && m == View(m.calls) && tried == |candidates|
      modifies this
      ensures var n := Exec(m, steps);
        View(n.calls) == n && c in n.calls && (if success then n.calls[c].Succeeded? else n.calls[c].Failed?)
      ensures steps == if tried == |old(nodes)| then [] else [if answer then Succeed(c) else Fail(c, until)]
      ensures success <==> answer && tried < |old(nodes)|
    {
      if tried == |nodes| {
        return false, [];
      }
      if answer {
        nodes := nodes[emergencyNode := Revived(nodes[emergencyNode])];
      }
      success, steps := answer, [if answer then Succeed(c) else Fail(c, until)];
      ExecSnoc(m, [], steps[0]);
      assert AwaitsEmergency(m, c);
    }

    /** The opening block: lift cooldowns, fix the candidates, start the first attempt. */
    method Open(ghost m: Manager, ghost c: Call, now: Time)
      returns (candidates: seq<nat>, emergencyNode: nat, ghost n: Manager)
      requires m == View(m.calls) && c !in m.calls && |nodes| > 0
      modifies this`nodes
      ensures n == Exec(m, [Begin(c, now)]) && n == View(n.calls)
      ensures candidates == Candidates(Reincorporate(old(nodes), now), roundRobinCursor)
      ensures At(n, c, candidates, 0, emergencyNode) && |nodes| == |old(nodes)|
    {
      LiftCooldowns(now);
      candidates := CollectCandidates();
      CandidatesAreHealthyInTierOrder(nodes, roundRobinCursor);
      DistinctBelowIsShort(candidates, |nodes|);
      ghost var lifted := View(m.calls);
      emergencyNode := StartAttempt(lifted, c, candidates, 0);
      n := TryFrom(lifted, c, candidates, 0);
      ExecSnoc(m, [], Begin(c, now));
    }

    /** From the first attempt to the end of the call. */
    method TryAll(ghost m: Manager, ghost c: Call, candidates: seq<nat>, firstEmergency: nat,
                  answers: seq<bool>, untils: seq<Time>)
      returns (success: bool, ghost steps: seq<Step>)
      requires At(m, c, candidates, 0, firstEmergency) && m == View(m.calls)
      modifies this
      ensures var n := Exec(m, steps);
        View(n.calls) == n && c in n.calls && (if success then n.calls[c].Succeeded? else n.calls[c].Failed?)
      ensures Follow(steps, c, answers, untils, success)
      ensures var most := if |candidates| < |m.nodes| then |candidates| + 1 else |candidates|;
        |steps| <= most && (!success ==> |steps| == most)
    {
      var emergencyNode;
      success, emergencyNode, steps := TryCandidates(m, c, candidates, firstEmergency, answers, untils);
      if !success {
        ghost var n, last := Exec(m, steps), [];
        var answer := Answered(answers, |candidates|);
        FollowNext(steps, c, answers, untils);
        success, last := LastResort(n, c, candidates, |candidates|, emergencyNode, answer,
                                    CooldownEnd(untils, |candidates|));
        ExecConcat(m, steps, last);
        steps := steps + last;
      }
    }

    /** One call with no other call in between. `answers[k]` says whether the k-th attempt succeeds and `untils[k]`
        when the cooldown its failure draws would end; attempts beyond the lists fail. The call succeeds exactly when
        one of the attempts it may make is answered, and each of its steps is the outcome of the next attempt. */
    method ExecuteWithFailover(ghost m: Manager, ghost c: Call, now: Time, answers: seq<bool>, untils: seq<Time>)
      returns (success: bool, ghost steps: seq<Step>)
      requires m == View(m.calls) && c !in m.calls
      modifies this
      ensures var n := Exec(m, steps);
        View(n.calls) == n && c in n.calls && (if success then n.calls[c].Succeeded? else n.calls[c].Failed?)
      ensures |steps| > 0 && steps[0] == Begin(c, now) && Follow(steps[1..], c, answers, untils, success)
      ensures var most := MostAttempts(old(nodes), now, old(roundRobinCursor));
        && (success <==> exists k :: 0 <= k < most && Answered(answers, k))
        && |steps| - 1 <= most && (!success ==> |steps| - 1 == most)
    {
      if |nodes| == 0 {
        ExecSnoc(m, [], Begin(c, now));
        NoAttempts(nodes, now, roundRobinCursor);
        return false, [Begin(c, now)];
      }
      ghost var most := MostAttempts(nodes, now, roundRobinCursor);
      ghost var n, attempts;
      var candidates, emergencyNode;
      candidates, emergencyNode, n := Open(m, c, now);
      success, attempts := TryAll(n, c, candidates, emergencyNode, answers, untils);
      ExecConcat(m, [Begin(c, now)], attempts);
      steps := [Begin(c, now)] + attempts;
      assert steps[1..] == attempts;
      OutcomeIsAnswered(attempts, c, answers, untils, success, most);
    }
  }

  predicate Answered(answers: seq<bool>, k: nat) { k < |answers| && answers[k] }

  function CooldownEnd(untils: seq<Time>, k: nat): Time { if k < |untils| then untils[k] else 1 }

  /** The step that settles the k-th attempt of call c. */
  function Settles(c: Call, answers: seq<bool>, untils: seq<Time>, k: nat): Step {
    if Answered(answers, k) then Succeed(c) else Fail(c, CooldownEnd(untils, k))
  }

  /** The steps settle the attempts one by one; all fail but the last one of a successful call. */
  ghost predicate Follow(steps: seq<Step>, c: Call, answers: seq<bool>, untils: seq<Time>, success: bool) {
    && (forall k: nat :: k < |steps| ==> steps[k] == Settles(c, answers, untils, k))
    && (success ==> steps != [])
    && (forall k: nat :: k < |steps| ==> (Answered(answers, k) <==> success && k == |steps| - 1))
  }

  lemma FollowNext(steps: seq<Step>, c: Call, answers: seq<bool>, untils: seq<Time>)
    requires Follow(steps, c, answers, untils, false)
    ensures Follow(steps + [Settles(c, answers, untils, |steps|)], c, answers, untils, Answered(answers, |steps|))
  {
  }

  /** A call that makes its attempts one by one until an answer succeeds exactly when one of them is answered. */
  lemma OutcomeIsAnswered(steps: seq<Step>, c: Call, answers: seq<bool>, untils: seq<Time>, success: bool, most: nat)
    requires Follow(steps, c, answers, untils, success) && |steps| <= most && (!success ==> |steps| == most)
    ensures success <==> exists k :: 0 <= k < most && Answered(answers, k)
  {
    if success { assert Answered(answers, |steps| - 1); }
  }

  lemma NoAttempts(nodes: seq<Node>, now: Time, cursor: nat)
    requires nodes == []
    ensures MostAttempts(nodes, now, cursor) == 0
  {
    CandidatesAreHealthyInTierOrder(Reincorporate(nodes, now), cursor);
    assert Candidates(Reincorporate(nodes, now), cursor) == [];
  }

  /** How many attempts a call may make: one on each healthy node, and the emergency retry if some node was cooling. */
  function MostAttempts(nodes: seq<Node>, now: Time, cursor: nat): nat {
    var candidates := |Candidates(Reincorporate(nodes, now), cursor)|;
    if candidates < |nodes| then candidates + 1 else candidates
  }

  /** Call c is about to learn the outcome of candidate k, or is past its candidates with `e` as emergency node. */
  ghost predicate At(m: Manager, c: Call, candidates: seq<nat>, k: nat, e: nat) {
    && |m.nodes| > 0 && Below(candidates, |m.nodes|) && |candidates| <= |m.nodes|
    && c in m.calls && m.calls[c] == PhaseAt(m, candidates, k)
    && (|candidates| <= k && |candidates| < |m.nodes| ==> e == Soonest(m.nodes, |m.nodes|))
  }

  /** The phase in which an attempt starts: on candidate k, in the emergency retry, or over. */
  ghost function PhaseAt(m: Manager, candidates: seq<nat>, k: nat): Phase
    requires |m.nodes| > 0
  {
    if k < |candidates| then Trying(candidates, k)
    else if |candidates| < |m.nodes| then Emergency(Soonest(m.nodes, |m.nodes|))
    else Failed
  }

  lemma {:induction false} ExecConcat(m: Manager, a: seq<Step>, b: seq<Step>)
    ensures Exec(m, a + b) == Exec(Exec(m, a), b)
  {
    if b == [] {
      assert a + b == a;
    } else {
      assert (a + b)[..|a + b| - 1] == a + b[..|b| - 1];
      ExecConcat(m, a, b[..|b| - 1]);
    }
  }
}
