/** What the counters, the cursor and the cooldowns of the scheduler say about the steps of a run. */
module RpcCounters {
  import opened RpcBound
  import opened RpcFailover
  import opened RpcRuns

  // ---------- Request counters ----------

  predicate SucceedsOn(m: Manager, s: Step, i: nat) { s.Succeed? && Awaits(m, s.c) && Current(m, s.c) == i }

  /** The step is enabled: a new call begins, or an attempt in flight is settled. */
  predicate Acts(m: Manager, s: Step) {
    if s.Begin? then s.c !in m.calls else Awaits(m, s.c) || AwaitsEmergency(m, s.c)
  }

  /** The step leaves its call waiting for a new attempt on node i. */
  predicate StartsOn(m: Manager, s: Step, i: nat) { Acts(m, s) && InFlightOn(Next(m, s).calls, s.c, i) }

  /** How many attempts a run started, answered and failed on node i; emergency retries are none of them. */
  datatype Tally = Tally(started: nat, answered: nat, failed: nat)

  function TallyOf(nodes: seq<Node>, steps: seq<Step>, i: nat): Tally {
    if steps == [] then Tally(0, 0, 0)
    else
      var front, s := steps[..|steps| - 1], steps[|steps| - 1];
      var m, t := Exec(Start(nodes), front), TallyOf(nodes, front, i);
      Tally(t.started + One(StartsOn(m, s, i)), t.answered + One(SucceedsOn(m, s, i)), t.failed + One(FailsOn(m, s, i)))
  }

  lemma BeginCounts(m: Manager, s: Step, i: nat)
    requires s.Begin? && s.c !in m.calls && i < |m.nodes|
    ensures var n := Next(m, s).nodes;
      && |n| == |m.nodes| && n[i].totalRequests == m.nodes[i].totalRequests + One(StartsOn(m, s, i))
      && n[i].totalSuccesses == m.nodes[i].totalSuccesses && n[i].totalFailures == m.nodes[i].totalFailures
  {
    var lifted := m.(nodes := Reincorporate(m.nodes, s.now));
    BeginIsTryFrom(m, s.c, s.now, lifted);
    assert lifted.nodes[i] == Reincorporated(m.nodes[i], s.now);
  }

  lemma StepCounts(m: Manager, s: Step, i: nat)
    requires i < |m.nodes|
    ensures var n := Next(m, s).nodes;
      && |n| == |m.nodes|
      && n[i].totalRequests == m.nodes[i].totalRequests + One(StartsOn(m, s, i))
      && n[i].totalSuccesses == m.nodes[i].totalSuccesses + One(SucceedsOn(m, s, i))
      && n[i].totalFailures == m.nodes[i].totalFailures + One(FailsOn(m, s, i))
  {
    if s.Begin? && s.c !in m.calls { BeginCounts(m, s, i); }
  }

  /** In every run each node's three counters are the numbers of attempts started, answered and failed on it. */
  lemma {:induction false} CountersAreTallies(nodes: seq<Node>, steps: seq<Step>, i: nat)
    requires FreshNodes(nodes) && i < |nodes|
    ensures |Exec(Start(nodes), steps).nodes| == |nodes|
    ensures var node := Exec(Start(nodes), steps).nodes[i];
      TallyOf(nodes, steps, i) == Tally(node.totalRequests, node.totalSuccesses, node.totalFailures)
  {
    if steps != [] {
      CountersAreTallies(nodes, steps[..|steps| - 1], i);
      StepCounts(Exec(Start(nodes), steps[..|steps| - 1]), steps[|steps| - 1], i);
    }
  }

  // ---------- How a call ends ----------

  predicate EndsAs(m: Manager, s: Step, c: Call, p: Phase) {
    !(c in m.calls && m.calls[c] == p) && c in Next(m, s).calls && Next(m, s).calls[c] == p
  }

  /** A call succeeds exactly when an attempt or the emergency retry it waits for is answered. */
  lemma SucceedsIff(m: Manager, s: Step, c: Call)
    ensures EndsAs(m, s, c, Succeeded) <==> s == Succeed(c) && (Awaits(m, c) || AwaitsEmergency(m, c))
  {
  }

  /** Call c waits for its emergency retry, or for the last of candidates that are all the nodes there are. */
  predicate AtItsEnd(m: Manager, c: Call) {
    || AwaitsEmergency(m, c)
    || (Awaits(m, c) && m.calls[c].pos + 1 == |m.calls[c].candidates| >= |m.nodes|)
  }

  /** A call fails exactly when there is no node at all, or when the last thing it could try fails. */
  lemma FailsIff(m: Manager, s: Step, c: Call)
    ensures EndsAs(m, s, c, Failed)
       <==> || (s.Begin? && s.c == c && c !in m.calls && m.nodes == [])
            || (s.Fail? && s.c == c && AtItsEnd(m, c))
  {
  }

  // ---------- The cursor ----------

  /** Answers to first or later candidates; answers to emergency retries do not count. */
  function AnswersIn(nodes: seq<Node>, steps: seq<Step>): nat {
    if steps == [] then 0
    else
      var front, s := steps[..|steps| - 1], steps[|steps| - 1];
      AnswersIn(nodes, front) + One(s.Succeed? && Awaits(Exec(Start(nodes), front), s.c))
  }

  /** The node of the last of them, or the first node. */
  function LastAnswerer(nodes: seq<Node>, steps: seq<Step>): nat {
    if steps == [] then 0
    else
      var front, s := steps[..|steps| - 1], steps[|steps| - 1];
      var m := Exec(Start(nodes), front);
      if s.Succeed? && Awaits(m, s.c) then Current(m, s.c) else LastAnswerer(nodes, front)
  }

  lemma BeginKeepsCursor(m: Manager, s: Step)
    requires s.Begin? && s.c !in m.calls
    ensures Next(m, s).cursor == m.cursor && Next(m, s).active == m.active
  {
    if |m.nodes| > 0 { BeginIsTryFrom(m, s.c, s.now, m.(nodes := Reincorporate(m.nodes, s.now))); }
  }

  lemma StepMovesCursor(m: Manager, s: Step)
    ensures var answered := s.Succeed? && Awaits(m, s.c);
      && Next(m, s).cursor == (if answered then (m.cursor + 1) % 10000 else m.cursor)
      && Next(m, s).active == (if answered then Current(m, s.c) else m.active)
  {
    if s.Begin? && s.c !in m.calls { BeginKeepsCursor(m, s); }
  }

  lemma MovedCursor(before: nat, after: nat, k: nat, answered: bool)
    requires before == k % 10000 && after == if answered then (before + 1) % 10000 else before
    ensures after == (k + One(answered)) % 10000
  {
  }

  /** In every run the cursor counts the answers modulo 10000. */
  lemma {:induction false} CursorCountsAnswers(nodes: seq<Node>, steps: seq<Step>)
    ensures Exec(Start(nodes), steps).cursor == AnswersIn(nodes, steps) % 10000
  {
    if steps != [] {
      var front, s := steps[..|steps| - 1], steps[|steps| - 1];
      var m := Exec(Start(nodes), front);
      CursorCountsAnswers(nodes, front);
      StepMovesCursor(m, s);
      MovedCursor(m.cursor, Next(m, s).cursor, AnswersIn(nodes, front), s.Succeed? && Awaits(m, s.c));
    }
  }

  /** In every run the active node is the one that answered last. */
  lemma {:induction false} ActiveAnsweredLast(nodes: seq<Node>, steps: seq<Step>)
    ensures Exec(Start(nodes), steps).active == LastAnswerer(nodes, steps)
  {
    if steps != [] {
      ActiveAnsweredLast(nodes, steps[..|steps| - 1]);
      StepMovesCursor(Exec(Start(nodes), steps[..|steps| - 1]), steps[|steps| - 1]);
    }
  }

  // ---------- Cooldowns ----------

  /** The end of the cooldown drawn at the last failure of node i that was its third in a row or a later one, zero once
      the node has answered or been lifted. */
  function LastDrawn(nodes: seq<Node>, steps: seq<Step>, i: nat): nat {
    if steps == [] then 0
    else
      var front, s := steps[..|steps| - 1], steps[|steps| - 1];
      var m := Exec(Start(nodes), front);
      if AnswersOn(m, s, i) || Lifts(m, s, i) then 0
      else if FailsOn(m, s, i) && Streak(nodes, front, i) >= 2 then s.until
      else LastDrawn(nodes, front, i)
  }

  lemma BeginCools(m: Manager, s: Step, i: nat)
    requires SoundNodes(m.nodes) && s.Begin? && s.c !in m.calls && i < |m.nodes|
    ensures |Next(m, s).nodes| == |m.nodes|
    ensures Next(m, s).nodes[i].cooldownUntil == if Lifts(m, s, i) then 0 else m.nodes[i].cooldownUntil
  {
    var lifted := m.(nodes := Reincorporate(m.nodes, s.now));
    BeginIsTryFrom(m, s.c, s.now, lifted);
    assert lifted.nodes[i] == Reincorporated(m.nodes[i], s.now);
  }

  lemma StepCools(m: Manager, s: Step, i: nat)
    requires SoundNodes(m.nodes) && i < |m.nodes|
    ensures |Next(m, s).nodes| == |m.nodes|
    ensures Next(m, s).nodes[i].cooldownUntil
         == if AnswersOn(m, s, i) || Lifts(m, s, i) then 0
            else if FailsOn(m, s, i) && m.nodes[i].consecutiveFailures >= 2 then s.until
            else m.nodes[i].cooldownUntil
  {
    if s.Begin? && s.c !in m.calls { BeginCools(m, s, i); }
  }

  /** In every run a node cools until the end drawn at its last failure from the third in a row on. */
  lemma {:induction false} CooldownIsLastDrawn(nodes: seq<Node>, steps: seq<Step>, i: nat)
    requires FreshNodes(nodes) && i < |nodes|
    ensures |Exec(Start(nodes), steps).nodes| == |nodes|
    ensures Exec(Start(nodes), steps).nodes[i].cooldownUntil == LastDrawn(nodes, steps, i)
  {
    HealthBookkeeping(nodes, steps);
    if steps != [] {
      var front := steps[..|steps| - 1];
      CooldownIsLastDrawn(nodes, front, i);
      HealthBookkeeping(nodes, front);
      UnhealthyIffThreeFailuresInARow(nodes, front, i);
      StepCools(Exec(Start(nodes), front), steps[|steps| - 1], i);
    }
  }

  /** In every run a new call finds a node healthy exactly when the node has not failed three times in a row, or the
      cooldown drawn for it is over. */
  lemma FoundHealthyIff(nodes: seq<Node>, steps: seq<Step>, c: Call, now: Time, i: nat)
    requires FreshNodes(nodes) && i < |nodes| && c !in Exec(Start(nodes), steps).calls
    ensures var seen := HistoryOf(nodes, steps + [Begin(c, now)], c).seen;
      |seen| == |nodes| && (seen[i].healthy <==> Streak(nodes, steps, i) < 3 || LastDrawn(nodes, steps, i) <= now)
  {
    var m := Exec(Start(nodes), steps);
    assert (steps + [Begin(c, now)])[..|steps|] == steps;
    UnhealthyIffThreeFailuresInARow(nodes, steps, i);
    CooldownIsLastDrawn(nodes, steps, i);
    assert Reincorporate(m.nodes, now)[i] == Reincorporated(m.nodes[i], now);
  }
}
