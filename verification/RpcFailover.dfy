/** The multi-RPC failover scheduler: tiered round-robin choice of nodes, health
    bookkeeping, cooldowns and the emergency retry, under concurrent calls. */
module RpcFailover {

  datatype Tier = PRIMARY | SECONDARY | FALLBACK

  /** A clock reading in milliseconds. */
  type Time = t: nat | t > 0 witness 1

  datatype Node = Node(
    tier: Tier,
    healthy: bool,
    consecutiveFailures: nat,
    cooldownUntil: nat,
    totalRequests: nat,
    totalSuccesses: nat,
    totalFailures: nat)

  const MAX_CONSECUTIVE_FAILURES := 3
  const CURSOR_MODULUS := 10000

  // ---------- Bookkeeping of one node ----------

  function Reincorporated(node: Node, now: Time): Node {
    if !node.healthy && now >= node.cooldownUntil
    then node.(healthy := true, consecutiveFailures := 0, cooldownUntil := 0) else node
  }

  function Reincorporate(nodes: seq<Node>, now: Time): (r: seq<Node>)
    ensures |r| == |nodes|
  {
    seq(|nodes|, i requires 0 <= i < |nodes| => Reincorporated(nodes[i], now))
  }

  function AfterRequest(node: Node): Node { node.(totalRequests := node.totalRequests + 1) }

  function Revived(node: Node): Node { node.(healthy := true, consecutiveFailures := 0, cooldownUntil := 0) }

  function AfterSuccess(node: Node): Node { Revived(node).(totalSuccesses := node.totalSuccesses + 1) }

  /** `until` is the end of the cooldown drawn for this failure: now, plus the cooldown, plus jitter. */
  function AfterFailure(node: Node, until: Time): Node {
    var counted := node.(totalFailures := node.totalFailures + 1, consecutiveFailures := node.consecutiveFailures + 1);
    if counted.consecutiveFailures >= MAX_CONSECUTIVE_FAILURES
    then counted.(healthy := false, cooldownUntil := until) else counted
  }

  // ---------- Choice of candidates ----------

  /** Indices of the healthy nodes of a tier among the first k nodes, in ascending order. */
  function TierIndices(nodes: seq<Node>, tier: Tier, k: nat): seq<nat>
    requires k <= |nodes|
  {
    if k == 0 then []
    else
      var front := TierIndices(nodes, tier, k - 1);
      if nodes[k - 1].tier == tier && nodes[k - 1].healthy then front + [k - 1] else front
  }

  function Rotated(s: seq<nat>, cursor: nat): (r: seq<nat>)
    ensures |r| == |s|
  {
    if s == [] then [] else seq(|s|, i requires 0 <= i => s[(cursor + i) % |s|])
  }

  function TierCandidates(nodes: seq<Node>, tier: Tier, cursor: nat): seq<nat> {
    Rotated(TierIndices(nodes, tier, |nodes|), cursor)
  }

  /** PRIMARY before SECONDARY before FALLBACK, each tier rotated by the cursor. */
  function Candidates(nodes: seq<Node>, cursor: nat): seq<nat> {
    TierCandidates(nodes, PRIMARY, cursor) + TierCandidates(nodes, SECONDARY, cursor)
    + TierCandidates(nodes, FALLBACK, cursor)
  }

  function Rank(t: Tier): nat { match t case PRIMARY => 0 case SECONDARY => 1 case FALLBACK => 2 }

  predicate Distinct(s: seq<nat>) { forall a, b :: 0 <= a < b < |s| ==> s[a] != s[b] }

  lemma RotationIsSplit(s: seq<nat>, cursor: nat)
    requires s != []
    ensures Rotated(s, cursor) == s[cursor % |s|..] + s[..cursor % |s|]
  {
    var n := |s|;
    var r := cursor % n;
    forall i | 0 <= i < n
      ensures Rotated(s, cursor)[i] == (s[r..] + s[..r])[i]
    {
      ModShift(cursor, i, n);
    }
  }

  lemma ModShift(cursor: nat, i: nat, n: nat)
    requires i < n
    ensures (cursor + i) % n == if cursor % n + i < n then cursor % n + i else cursor % n + i - n
  {
    var q, r := cursor / n, cursor % n;
    if r + i < n {
      ModUnique(cursor + i, n, q, r + i);
    } else {
      assert (q + 1) * n == q * n + n;
      ModUnique(cursor + i, n, q + 1, r + i - n);
    }
  }

  lemma MultipleAtLeast(k: int, n: int)
    requires k >= 1 && n > 0
    ensures k * n >= n
  {
  }

  lemma SmallMultipleIsZero(k: int, n: int)
    requires n > 0 && -n < k * n < n
    ensures k == 0
  {
    if k >= 1 {
      MultipleAtLeast(k, n);
    } else if k <= -1 {
      MultipleAtLeast(-k, n);
    }
  }

  lemma ModUnique(x: nat, n: nat, q: nat, r: nat)
    requires x == q * n + r && r < n
    ensures x % n == r
  {
    var p, t := x / n, x % n;
    assert x == p * n + t;
    assert (p - q) * n == p * n - q * n;
    SmallMultipleIsZero(p - q, n);
  }

  lemma {:induction false} TierIndicesAre(nodes: seq<Node>, tier: Tier, k: nat)
    requires k <= |nodes|
    ensures var r := TierIndices(nodes, tier, k);
      Distinct(r) && forall i: nat :: i in r <==> i < k && nodes[i].tier == tier && nodes[i].healthy
  {
    if k > 0 { TierIndicesAre(nodes, tier, k - 1); }
  }

  lemma RotationKeeps(s: seq<nat>, cut: nat)
    requires cut <= |s| && Distinct(s)
    ensures Distinct(s[cut..] + s[..cut])
    ensures forall i :: i in s <==> i in s[cut..] + s[..cut]
  {
    var r := s[cut..] + s[..cut];
    assert s == s[..cut] + s[cut..];
    forall a, b | 0 <= a < b < |r| ensures r[a] != r[b] {
      var x := if a < |s| - cut then a + cut else a - (|s| - cut);
      var y := if b < |s| - cut then b + cut else b - (|s| - cut);
      assert r[a] == s[x] && r[b] == s[y] && x != y;
    }
  }

  lemma TierCandidatesAre(nodes: seq<Node>, tier: Tier, cursor: nat)
    ensures var c := TierCandidates(nodes, tier, cursor);
      && Distinct(c)
      && forall i: nat :: i in c <==> i < |nodes| && nodes[i].tier == tier && nodes[i].healthy
  {
    var s := TierIndices(nodes, tier, |nodes|);
    TierIndicesAre(nodes, tier, |nodes|);
    if s != [] {
      RotationIsSplit(s, cursor);
      RotationKeeps(s, cursor % |s|);
    }
  }

  predicate Below(s: seq<nat>, n: nat) { forall k :: 0 <= k < |s| ==> s[k] < n }

  predicate InTierOrder(nodes: seq<Node>, c: seq<nat>)
    requires Below(c, |nodes|)
  {
    forall a, b :: 0 <= a < b < |c| ==> Rank(nodes[c[a]].tier) <= Rank(nodes[c[b]].tier)
  }

  /** The part of the candidate list a position lies in decides the tier of its node. */
  lemma CandidateAt(nodes: seq<Node>, cursor: nat, a: nat)
    requires a < |Candidates(nodes, cursor)|
    ensures var c, p, s := Candidates(nodes, cursor), |TierCandidates(nodes, PRIMARY, cursor)|,
        |TierCandidates(nodes, SECONDARY, cursor)|;
      && c[a] < |nodes| && nodes[c[a]].healthy
      && nodes[c[a]].tier == (if a < p then PRIMARY else if a < p + s then SECONDARY else FALLBACK)
  {
    var c := Candidates(nodes, cursor);
    var p, s := TierCandidates(nodes, PRIMARY, cursor), TierCandidates(nodes, SECONDARY, cursor);
    var f := TierCandidates(nodes, FALLBACK, cursor);
    if a < |p| {
      TierCandidatesAre(nodes, PRIMARY, cursor);
      assert c[a] == p[a] && p[a] in p;
    } else if a < |p| + |s| {
      TierCandidatesAre(nodes, SECONDARY, cursor);
      assert c[a] == s[a - |p|] && s[a - |p|] in s;
    } else {
      TierCandidatesAre(nodes, FALLBACK, cursor);
      assert c[a] == f[a - |p| - |s|] && f[a - |p| - |s|] in f;
    }
  }

  lemma CandidatesDiffer(nodes: seq<Node>, cursor: nat, a: nat, b: nat)
    requires a < b < |Candidates(nodes, cursor)|
    ensures Candidates(nodes, cursor)[a] != Candidates(nodes, cursor)[b]
  {
    CandidateAt(nodes, cursor, a);
    CandidateAt(nodes, cursor, b);
    TierCandidatesAre(nodes, PRIMARY, cursor);
    TierCandidatesAre(nodes, SECONDARY, cursor);
    TierCandidatesAre(nodes, FALLBACK, cursor);
  }

  /** The candidates are the healthy nodes, each once, better tiers first. */
  lemma CandidatesAreHealthyInTierOrder(nodes: seq<Node>, cursor: nat)
    ensures var c := Candidates(nodes, cursor);
      && Distinct(c)
      && (forall i: nat :: i in c <==> i < |nodes| && nodes[i].healthy)
      && Below(c, |nodes|) && InTierOrder(nodes, c)
  {
    var c := Candidates(nodes, cursor);
    forall a | 0 <= a < |c| ensures c[a] < |nodes| && nodes[c[a]].healthy { CandidateAt(nodes, cursor, a); }
    forall a, b | 0 <= a < b < |c|
      ensures c[a] != c[b] && Rank(nodes[c[a]].tier) <= Rank(nodes[c[b]].tier)
    {
      CandidatesDiffer(nodes, cursor, a, b);
      CandidateAt(nodes, cursor, a);
      CandidateAt(nodes, cursor, b);
    }
    forall i: nat | i < |nodes| && nodes[i].healthy ensures i in c {
      TierCandidatesAre(nodes, nodes[i].tier, cursor);
      assert i in TierCandidates(nodes, nodes[i].tier, cursor);
    }
  }

  lemma BelowIsPositive(s: seq<nat>, n: nat)
    requires s != [] && Below(s, n)
    ensures n > 0
  {
    assert s[0] < n;
  }

  lemma {:induction false} DistinctBelowIsShort(s: seq<nat>, n: nat)
    requires Distinct(s) && Below(s, n)
    ensures |s| <= n
  {
    if s != [] { BelowIsPositive(s, n); }
    if n > 0 && n - 1 in s {
      var k :| 0 <= k < |s| && s[k] == n - 1;
      DistinctBelowIsShort(s[..k] + s[k + 1..], n - 1);
    } else if n > 0 {
      DistinctBelowIsShort(s, n - 1);
    }
  }

  // ---------- Emergency choice ----------

  /** First of the first k nodes with the least cooldown: the head of a stable sort. */
  function Soonest(nodes: seq<Node>, k: nat): (b: nat)
    requires 1 <= k <= |nodes|
    ensures b < k
    ensures forall j :: 0 <= j < k ==> nodes[b].cooldownUntil <= nodes[j].cooldownUntil
    ensures forall j :: 0 <= j < b ==> nodes[b].cooldownUntil < nodes[j].cooldownUntil
  {
    if k == 1 then 0
    else
      var b := Soonest(nodes, k - 1);
      if nodes[k - 1].cooldownUntil < nodes[b].cooldownUntil then k - 1 else b
  }

  // ---------- Calls in flight ----------

  type Call = nat

  /** Trying candidate `pos` of those fixed when the call began; retrying `node` in an emergency; or over. */
  datatype Phase =
    | Trying(candidates: seq<nat>, pos: nat)
    | Emergency(node: nat)
    | Succeeded
    | Failed

  datatype Manager = Manager(nodes: seq<Node>, cursor: nat, active: nat, calls: map<Call, Phase>)

  datatype Step =
    | Begin(c: Call, now: Time)
    | Succeed(c: Call)
    | Fail(c: Call, until: Time)

  function Start(nodes: seq<Node>): Manager { Manager(nodes, 0, 0, map[]) }

  function SetNode(m: Manager, i: nat, node: Node): Manager
    requires i < |m.nodes|
  {
    m.(nodes := m.nodes[i := node])
  }

  function SetPhase(m: Manager, c: Call, p: Phase): Manager { m.(calls := m.calls[c := p]) }

  /** The node of an attempt still waiting for its answer. */
  predicate InFlightOn(calls: map<Call, Phase>, c: Call, i: nat) {
    c in calls && calls[c].Trying? && calls[c].pos < |calls[c].candidates|
    && calls[c].candidates[calls[c].pos] == i
  }

  /** Continue with candidate `pos`, or with the emergency retry, or give up. */
  function TryFrom(m: Manager, c: Call, candidates: seq<nat>, pos: nat): Manager
    requires |m.nodes| > 0 && Below(candidates, |m.nodes|)
  {
    if pos < |candidates| then
      var i := candidates[pos];
      SetPhase(SetNode(m, i, AfterRequest(m.nodes[i])), c, Trying(candidates, pos))
    else if |candidates| < |m.nodes| then
      SetPhase(m, c, Emergency(Soonest(m.nodes, |m.nodes|)))
    else
      SetPhase(m, c, Failed)
  }

  /** A new call: cooldowns that ran out are lifted, then the candidates are fixed. */
  function OnBegin(m: Manager, c: Call, now: Time): Manager {
    if |m.nodes| == 0 then SetPhase(m, c, Failed)
    else
      var nodes := Reincorporate(m.nodes, now);
      CandidatesAreHealthyInTierOrder(nodes, m.cursor);
      TryFrom(m.(nodes := nodes), c, Candidates(nodes, m.cursor), 0)
  }

  /** Call c waits for the answer of its candidate `pos`. */
  predicate Awaits(m: Manager, c: Call) {
    c in m.calls && m.calls[c].Trying? && m.calls[c].pos < |m.calls[c].candidates|
    && Below(m.calls[c].candidates, |m.nodes|)
  }

  /** Call c waits for the answer of its emergency retry. */
  predicate AwaitsEmergency(m: Manager, c: Call) {
    c in m.calls && m.calls[c].Emergency? && m.calls[c].node < |m.nodes|
  }

  function Current(m: Manager, c: Call): (i: nat)
    requires Awaits(m, c)
    ensures i < |m.nodes|
  {
    m.calls[c].candidates[m.calls[c].pos]
  }

  function OnSuccess(m: Manager, c: Call): Manager
    requires Awaits(m, c)
  {
    var i := Current(m, c);
    SetPhase(SetNode(m, i, AfterSuccess(m.nodes[i])), c, Succeeded)
    .(active := i, cursor := (m.cursor + 1) % CURSOR_MODULUS)
  }

  function OnFailure(m: Manager, c: Call, until: Time): Manager
    requires Awaits(m, c)
  {
    var i := Current(m, c);
    TryFrom(SetNode(m, i, AfterFailure(m.nodes[i], until)), c, m.calls[c].candidates, m.calls[c].pos + 1)
  }

  function OnEmergencySuccess(m: Manager, c: Call): Manager
    requires AwaitsEmergency(m, c)
  {
    var i := m.calls[c].node;
    SetPhase(SetNode(m, i, Revived(m.nodes[i])), c, Succeeded)
  }

  function OnEmergencyFailure(m: Manager, c: Call): Manager
    requires AwaitsEmergency(m, c)
  {
    SetPhase(m, c, Failed)
  }

  /** One synchronous block of one call; a step that is not enabled changes nothing. */
  function Next(m: Manager, s: Step): Manager {
    match s
    case Begin(c, now) => if c in m.calls then m else OnBegin(m, c, now)
    case Succeed(c) =>
      if Awaits(m, c) then OnSuccess(m, c) else if AwaitsEmergency(m, c) then OnEmergencySuccess(m, c) else m
    case Fail(c, until) =>
      if Awaits(m, c) then OnFailure(m, c, until)
      else if AwaitsEmergency(m, c) then OnEmergencyFailure(m, c) else m
  }

  /** A call that begins lifts cooldowns and starts on its first candidate. */
  lemma BeginIsTryFrom(m: Manager, c: Call, now: Time, lifted: Manager)
    requires c !in m.calls && |m.nodes| > 0 && lifted == m.(nodes := Reincorporate(m.nodes, now))
    ensures Below(Candidates(lifted.nodes, m.cursor), |m.nodes|)
    ensures Next(m, Begin(c, now)) == TryFrom(lifted, c, Candidates(lifted.nodes, m.cursor), 0)
  {
    CandidatesAreHealthyInTierOrder(lifted.nodes, m.cursor);
  }

  function Exec(m: Manager, steps: seq<Step>): Manager {
    if steps == [] then m else Next(Exec(m, steps[..|steps| - 1]), steps[|steps| - 1])
  }

  predicate Fresh(node: Node) {
    node.healthy && node.consecutiveFailures == 0 && node.cooldownUntil == 0
    && node.totalRequests == node.totalSuccesses == node.totalFailures == 0
  }

  predicate FreshNodes(nodes: seq<Node>) { forall i :: 0 <= i < |nodes| ==> Fresh(nodes[i]) }
}
