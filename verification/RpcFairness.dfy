/** Round-robin fairness: who serves consecutive first-try successes. */
module RpcFairness {
  import opened RpcFailover

  // ---------- The cursor arithmetic ----------

  /** The slot, out of k, that the i-th call from cursor c takes when the cursor wraps at w. */
  function Slot(c: nat, i: nat, k: nat, w: nat): nat
    requires k > 0 && w > 0
  {
    ((c + i) % w) % k
  }

  ghost predicate SlotsDistinct(c: nat, k: nat, w: nat)
    requires k > 0 && w > 0
  {
    forall i, j :: 0 <= i < j < k ==> Slot(c, i, k, w) != Slot(c, j, k, w)
  }

  lemma SameResidueIsSame(x: nat, y: nat, k: nat)
    requires x <= y < x + k && x % k == y % k
    ensures x == y
  {
    var p, q, r := x / k, y / k, x % k;
    assert x == p * k + r && y == q * k + r;
    assert (q - p) * k == q * k - p * k;
    SmallMultipleIsZero(q - p, k);
  }

  lemma ModBelow(x: nat, w: nat)
    requires x < w
    ensures x % w == x
  {
    ModUnique(x, w, 0, x);
  }

  lemma ModOnce(x: nat, w: nat)
    requires w <= x < 2 * w
    ensures x % w == x - w
  {
    ModUnique(x, w, 1, x - w);
  }

  lemma WholeTurnsDrop(x: nat, w: nat, k: nat)
    requires 0 < k && w <= x && w % k == 0
    ensures (x - w) % k == x % k
  {
    var q, r := x / k, x % k;
    var turns := w / k;
    assert x == q * k + r && w == turns * k;
    assert (q - turns) * k == q * k - turns * k;
    assert q >= turns by {
      if turns - q >= 1 { MultipleAtLeast(turns - q, k); }
    }
    ModUnique(x - w, k, q - turns, r);
  }

  /** Without a wrap, or with the wrap at a multiple of k, a slot is the plain remainder. */
  lemma SlotIsRemainder(c: nat, i: nat, k: nat, w: nat)
    requires 0 < k && i < k && c < w
    requires c + k <= w || (w % k == 0 && k <= w)
    ensures Slot(c, i, k, w) == (c + i) % k
  {
    if c + i < w {
      ModBelow(c + i, w);
    } else {
      ModOnce(c + i, w);
      WholeTurnsDrop(c + i, w, k);
    }
  }

  lemma TwoSlotsDiffer(c: nat, i: nat, j: nat, k: nat, w: nat)
    requires i < j < k && c < w
    requires c + k <= w || (w % k == 0 && k <= w)
    ensures Slot(c, i, k, w) != Slot(c, j, k, w)
  {
    SlotIsRemainder(c, i, k, w);
    SlotIsRemainder(c, j, k, w);
    if (c + i) % k == (c + j) % k {
      SameResidueIsSame(c + i, c + j, k);
    }
  }

  lemma FairWhenAligned(c: nat, k: nat, w: nat)
    requires 0 < k && c < w
    requires c + k <= w || (w % k == 0 && k <= w)
    ensures SlotsDistinct(c, k, w)
  {
    forall i, j | 0 <= i < j < k
      ensures Slot(c, i, k, w) != Slot(c, j, k, w)
    {
      TwoSlotsDiffer(c, i, j, k, w);
    }
  }

  /** A wrap away from a multiple of k inside the window makes two calls meet. */
  lemma UnfairOtherwise(c: nat, k: nat, w: nat) returns (i: nat, j: nat)
    requires 0 < k && c < w < c + k && (w % k != 0 || k > w)
    ensures i < j < k && Slot(c, i, k, w) == Slot(c, j, k, w)
  {
    if k > w {
      i, j := 0, w;
      ModBelow(c, w);
      ModOnce(c + w, w);
    } else {
      var r, ahead := w % k, w - c;
      var turns := w / k;
      assert w == turns * k + r;
      if r - 1 < k - ahead {
        i, j := ahead - 1, ahead + r - 1;
        ModBelow(w - 1, w);
        ModUnique(w - 1, k, turns, r - 1);
        ModOnce(w + r - 1, w);
        ModBelow(r - 1, k);
      } else {
        var back := r - k + ahead;
        i, j := ahead - 1 - back, k - 1;
        ModBelow(w - 1 - back, w);
        ModUnique(w - 1 - back, k, turns, r - 1 - back);
        ModOnce(c + k - 1, w);
        ModBelow(k - 1 - ahead, k);
      }
    }
  }

  /** k consecutive calls take k different slots exactly when the cursor does not wrap among them,
      or wraps at a multiple of k. */
  lemma SlotsDistinctIff(c: nat, k: nat, w: nat)
    requires 0 < k && c < w
    ensures SlotsDistinct(c, k, w) <==> c + k <= w || w % k == 0
  {
    if k > w { ModBelow(w, k); }
    if c + k <= w || (w % k == 0 && k <= w) {
      FairWhenAligned(c, k, w);
    } else {
      var i, j := UnfairOtherwise(c, k, w);
    }
  }

  // ---------- First candidates ----------

  /** The healthy nodes of the best tier that has any. */
  function TopTier(nodes: seq<Node>): seq<nat> {
    var primary := TierIndices(nodes, PRIMARY, |nodes|);
    var secondary := TierIndices(nodes, SECONDARY, |nodes|);
    if primary != [] then primary else if secondary != [] then secondary else TierIndices(nodes, FALLBACK, |nodes|)
  }

  lemma FirstCandidate(nodes: seq<Node>, cursor: nat)
    requires TopTier(nodes) != []
    ensures Candidates(nodes, cursor) != []
    ensures Candidates(nodes, cursor)[0] == TopTier(nodes)[cursor % |TopTier(nodes)|]
  {
  }

  predicate SameHealth(a: seq<Node>, b: seq<Node>) {
    |a| == |b| && forall i :: 0 <= i < |a| ==>
      a[i].tier == b[i].tier && a[i].healthy == b[i].healthy && a[i].cooldownUntil == b[i].cooldownUntil
  }

  lemma {:induction false} SameTierIndices(a: seq<Node>, b: seq<Node>, tier: Tier, k: nat)
    requires SameHealth(a, b) && k <= |a|
    ensures TierIndices(a, tier, k) == TierIndices(b, tier, k)
  {
    if k > 0 { SameTierIndices(a, b, tier, k - 1); }
  }

  lemma SameTopTier(a: seq<Node>, b: seq<Node>)
    requires SameHealth(a, b)
    ensures TopTier(a) == TopTier(b)
  {
    SameTierIndices(a, b, PRIMARY, |a|);
    SameTierIndices(a, b, SECONDARY, |a|);
    SameTierIndices(a, b, FALLBACK, |a|);
  }

  // ---------- Consecutive calls ----------

  /** Call c begins in n and succeeds at its first attempt, which gives s. */
  ghost predicate Serves(n: Manager, s: Manager, c: Call, now: Time) {
    exists b :: b == Next(n, Begin(c, now)) && s == Next(b, Succeed(c))
  }

  ghost predicate ServesAt(states: seq<Manager>, first: Call, times: seq<Time>, j: nat)
    requires |states| == |times| + 1 && j < |times|
  {
    Serves(states[j], states[j + 1], first + j, times[j])
  }

  /** The states around calls first, first + 1, ... made one after the other, each succeeding at its first attempt. */
  ghost predicate Consecutive(states: seq<Manager>, first: Call, times: seq<Time>) {
    && |states| == |times| + 1
    && forall j: nat :: j < |times| ==> ServesAt(states, first, times, j)
  }

  /** No cooldown runs out at the given time, and healthy nodes have none. */
  predicate Steady(nodes: seq<Node>, now: Time) {
    forall i :: 0 <= i < |nodes| ==>
      if nodes[i].healthy then nodes[i].cooldownUntil == 0 else now < nodes[i].cooldownUntil
  }

  predicate SteadyThrough(nodes: seq<Node>, times: seq<Time>) {
    forall j :: 0 <= j < |times| ==> Steady(nodes, times[j])
  }

  /** s is what n becomes when its top-tier slot at the cursor serves call c. */
  ghost predicate Advances(n: Manager, s: Manager, c: Call, top: seq<nat>)
    requires top != []
  {
    && s.active == top[n.cursor % |top|]
    && s.cursor == (n.cursor + 1) % CURSOR_MODULUS
    && SameHealth(n.nodes, s.nodes)
    && s.calls.Keys == n.calls.Keys + {c}
  }

  /** A call beginning in a steady pool puts its first attempt on the slot of the top tier the cursor points at. */
  lemma BeginEffect(m: Manager, b: Manager, c: Call, now: Time, top: seq<nat>)
    requires b == Next(m, Begin(c, now)) && c !in m.calls && Steady(m.nodes, now)
    requires top == TopTier(m.nodes) != []
    ensures Awaits(b, c) && Current(b, c) == top[m.cursor % |top|]
    ensures b.nodes[Current(b, c)].healthy && b.nodes[Current(b, c)].cooldownUntil == 0
    ensures SameHealth(m.nodes, b.nodes) && b.cursor == m.cursor && b.calls.Keys == m.calls.Keys + {c}
  {
    var nodes := Reincorporate(m.nodes, now);
    assert nodes == m.nodes;
    CandidatesAreHealthyInTierOrder(nodes, m.cursor);
    FirstCandidate(nodes, m.cursor);
    var candidates := Candidates(nodes, m.cursor);
    assert candidates[0] in candidates;
    assert b == TryFrom(m, c, candidates, 0);
  }

  /** An answer moves the cursor by one and leaves the health of a healthy node as it was. */
  lemma SuccessEffect(b: Manager, s: Manager, c: Call)
    requires Awaits(b, c) && s == Next(b, Succeed(c))
    requires b.nodes[Current(b, c)].healthy && b.nodes[Current(b, c)].cooldownUntil == 0
    ensures s.active == Current(b, c) && s.cursor == (b.cursor + 1) % CURSOR_MODULUS
    ensures SameHealth(b.nodes, s.nodes) && s.calls.Keys == b.calls.Keys
  {
  }

  /** One first-try success serves the slot of the top tier the cursor points at, and moves the cursor by one. */
  lemma ServeEffect(m: Manager, s: Manager, c: Call, now: Time, top: seq<nat>)
    requires Serves(m, s, c, now)
    requires c !in m.calls && Steady(m.nodes, now)
    requires top == TopTier(m.nodes) != []
    ensures Advances(m, s, c, top)
  {
    var b :| b == Next(m, Begin(c, now)) && s == Next(b, Succeed(c));
    BeginEffect(m, b, c, now, top);
    SuccessEffect(b, s, c);
  }

  /** State n after k of the calls: health as in m, cursor k further, call numbers used below first + k. */
  ghost predicate Reached(m: Manager, n: Manager, first: Call, k: nat) {
    && SameHealth(m.nodes, n.nodes)
    && n.cursor == (m.cursor + k) % CURSOR_MODULUS
    && forall c :: c in n.calls ==> c < first + k
  }

  lemma ReachedNext(m: Manager, n: Manager, s: Manager, first: Call, k: nat, top: seq<nat>)
    requires Reached(m, n, first, k) && top != [] && Advances(n, s, first + k, top)
    ensures Reached(m, s, first, k + 1)
    ensures s.active == top[Slot(m.cursor, k, |top|, CURSOR_MODULUS)]
  {
    NextCursor(m.cursor, k);
    forall c | c in s.calls ensures c < first + k + 1 {
      assert c in s.calls.Keys;
    }
  }

  lemma ReachedIsSteady(m: Manager, n: Manager, first: Call, k: nat, now: Time)
    requires Reached(m, n, first, k) && Steady(m.nodes, now)
    ensures Steady(n.nodes, now) && TopTier(n.nodes) == TopTier(m.nodes) && first + k !in n.calls
  {
    SameTopTier(m.nodes, n.nodes);
  }

  /** After call number k the k-th slot has served. */
  ghost predicate ServedInTurn(m: Manager, n: Manager, first: Call, k: nat, top: seq<nat>)
    requires top != []
  {
    Reached(m, n, first, k) && (k > 0 ==> n.active == top[Slot(m.cursor, k - 1, |top|, CURSOR_MODULUS)])
  }

  lemma AdvanceInTurn(m: Manager, n: Manager, s: Manager, first: Call, k: nat, top: seq<nat>)
    requires top != [] && ServedInTurn(m, n, first, k, top) && Advances(n, s, first + k, top)
    ensures ServedInTurn(m, s, first, k + 1, top)
  {
    ReachedNext(m, n, s, first, k, top);
  }

  /** The next first-try success serves the next slot. */
  lemma StepInTurn(m: Manager, n: Manager, s: Manager, first: Call, k: nat, now: Time, top: seq<nat>)
    requires top == TopTier(m.nodes) != [] && Steady(m.nodes, now)
    requires ServedInTurn(m, n, first, k, top) && Serves(n, s, first + k, now)
    ensures ServedInTurn(m, s, first, k + 1, top)
  {
    ReachedIsSteady(m, n, first, k, now);
    ServeEffect(n, s, first + k, now, top);
    AdvanceInTurn(m, n, s, first, k, top);
  }

  /** Consecutive first-try successes serve the slots in turn. */
  lemma {:induction false} ServesInTurn(states: seq<Manager>, first: Call, times: seq<Time>, k: nat, top: seq<nat>)
    requires Consecutive(states, first, times) && k <= |times|
    requires SteadyThrough(states[0].nodes, times) && Reached(states[0], states[0], first, 0)
    requires top == TopTier(states[0].nodes) != []
    ensures ServedInTurn(states[0], states[k], first, k, top)
  {
    if k > 0 {
      var j := k - 1;
      ServesInTurn(states, first, times, j, top);
      assert ServesAt(states, first, times, j);
      StepInTurn(states[0], states[j], states[k], first, j, times[j], top);
    }
  }

  lemma NextCursor(cursor: nat, k: nat)
    ensures ((cursor + k) % CURSOR_MODULUS + 1) % CURSOR_MODULUS == (cursor + k + 1) % CURSOR_MODULUS
  {
  }

  /** Among k healthy nodes of the top tier, k consecutive first-try successes use each node exactly once,
      if and only if the cursor does not wrap at 10000 among them or k divides 10000. */
  lemma RoundRobinIsFairIff(states: seq<Manager>, first: Call, times: seq<Time>)
    requires Consecutive(states, first, times) && SteadyThrough(states[0].nodes, times)
    requires states[0].cursor < CURSOR_MODULUS && forall c :: c in states[0].calls ==> c < first
    requires |times| == |TopTier(states[0].nodes)| > 0
    ensures (forall i, j :: 0 < i < j <= |times| ==> states[i].active != states[j].active)
       <==> states[0].cursor + |times| <= CURSOR_MODULUS || CURSOR_MODULUS % |times| == 0
    ensures forall j :: 0 < j <= |times| ==> states[j].active in TopTier(states[0].nodes)
  {
    var top, k, cursor := TopTier(states[0].nodes), |times|, states[0].cursor;
    forall j | 0 < j <= k
      ensures states[j].active == top[Slot(cursor, j - 1, k, CURSOR_MODULUS)]
    {
      ServesInTurn(states, first, times, j, top);
    }
    SlotsDistinctIff(cursor, k, CURSOR_MODULUS);
    TopTierDistinct(states[0].nodes);
    if forall i, j :: 0 < i < j <= k ==> states[i].active != states[j].active {
      forall i, j | 0 <= i < j < k
        ensures Slot(cursor, i, k, CURSOR_MODULUS) != Slot(cursor, j, k, CURSOR_MODULUS)
      {
        assert states[i + 1].active != states[j + 1].active;
      }
    }
    if SlotsDistinct(cursor, k, CURSOR_MODULUS) {
      forall i, j | 0 < i < j <= k
        ensures states[i].active != states[j].active
      {
        DistinctAt(top, Slot(cursor, i - 1, k, CURSOR_MODULUS), Slot(cursor, j - 1, k, CURSOR_MODULUS));
      }
    }
  }

  lemma TopTierDistinct(nodes: seq<Node>)
    ensures Distinct(TopTier(nodes))
  {
    TierIndicesAre(nodes, PRIMARY, |nodes|);
    TierIndicesAre(nodes, SECONDARY, |nodes|);
    TierIndicesAre(nodes, FALLBACK, |nodes|);
  }

  lemma DistinctAt(s: seq<nat>, i: nat, j: nat)
    requires Distinct(s) && i < |s| && j < |s| && i != j
    ensures s[i] != s[j]
  {
  }

  // ---------- A run across the wrap ----------

  /** The first k calls, one after the other, each answered by its first candidate. */
  function Serving(k: nat): seq<Step> {
    if k == 0 then [] else Serving(k - 1) + [Begin(k - 1, 1), Succeed(k - 1)]
  }

  lemma ServingExec(m: Manager, k: nat)
    requires k > 0
    ensures Serves(Exec(m, Serving(k - 1)), Exec(m, Serving(k)), k - 1, 1)
  {
    var before, s := Serving(k - 1), Serving(k);
    assert s[..|s| - 1] == before + [Begin(k - 1, 1)] && (before + [Begin(k - 1, 1)])[..|before|] == before;
    var b := Next(Exec(m, before), Begin(k - 1, 1));
    assert Exec(m, s) == Next(b, Succeed(k - 1));
  }

  lemma StartInTurn(nodes: seq<Node>, top: seq<nat>)
    requires FreshNodes(nodes) && top == TopTier(nodes) != []
    ensures ServedInTurn(Start(nodes), Start(nodes), 0, 0, top) && Steady(nodes, 1)
  {
  }

  lemma {:induction false} ServingInTurn(nodes: seq<Node>, k: nat, top: seq<nat>)
    requires FreshNodes(nodes) && top == TopTier(nodes) != []
    ensures ServedInTurn(Start(nodes), Exec(Start(nodes), Serving(k)), 0, k, top)
  {
    StartInTurn(nodes, top);
    if k == 0 {
      assert Exec(Start(nodes), Serving(0)) == Start(nodes);
    } else {
      var m := Start(nodes);
      ServingInTurn(nodes, k - 1, top);
      ServingExec(m, k);
      StepInTurn(m, Exec(m, Serving(k - 1)), Exec(m, Serving(k)), 0, k - 1, 1, top);
    }
  }

  lemma ServingActive(nodes: seq<Node>, k: nat)
    requires FreshNodes(nodes) && TopTier(nodes) != [] && k > 0
    ensures var m, top := Exec(Start(nodes), Serving(k)), TopTier(nodes);
      m.cursor == k % CURSOR_MODULUS && m.active == top[Slot(0, k - 1, |top|, CURSOR_MODULUS)]
  {
    ServingInTurn(nodes, k, TopTier(nodes));
  }

  /** With three healthy nodes in the top tier, the calls before and after the wrap of the cursor go to the same
      node. */
  lemma WrapServesANodeTwice(nodes: seq<Node>)
    requires FreshNodes(nodes) && |TopTier(nodes)| == 3
    ensures Exec(Start(nodes), Serving(9999)).cursor == 9999
    ensures Exec(Start(nodes), Serving(10000)).active == Exec(Start(nodes), Serving(10001)).active == TopTier(nodes)[0]
  {
    ServingActive(nodes, 9999);
    ServingActive(nodes, 10000);
    ServingActive(nodes, 10001);
  }
}
