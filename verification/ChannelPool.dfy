/** Leasing of channel accounts to concurrent callers, interleaved at every await. */
module ChannelPool {
  import opened Wrappers

  type Key = nat
  type Caller = nat

  /** Where a call of withChannelAccount stands. A lease made by the timeout
      fallback hands out the primary key without marking it in use. */
  datatype Phase = Waiting | Leasing(key: Key, fromPool: bool) | Finished

  datatype Manager = Manager(pool: seq<Key>, primary: Key, inUse: set<Key>, callers: map<Caller, Phase>)

  /** The synchronous pieces of a call: entering, one scan of the pool, the timeout
      fallback, and the release in the finally block (after a return or a throw). */
  datatype Step = Enter(c: Caller) | Scan(c: Caller) | TimeOut(c: Caller) | Release(c: Caller)

  function FirstFree(pool: seq<Key>, inUse: set<Key>): (r: Option<Key>)
    ensures r.Some? ==> r.value in pool && r.value !in inUse
    ensures r.None? ==> forall k :: k in pool ==> k in inUse
  {
    if pool == [] then None
    else if pool[0] !in inUse then Some(pool[0])
    else FirstFree(pool[1..], inUse)
  }

  /** The scan takes the first key of the pool that is not in use. */
  lemma {:induction false} FirstFreeIsFirst(pool: seq<Key>, inUse: set<Key>)
    requires FirstFree(pool, inUse).Some?
    ensures exists i ::
      0 <= i < |pool| && pool[i] == FirstFree(pool, inUse).value && forall j :: 0 <= j < i ==> pool[j] in inUse
  {
    if pool[0] !in inUse {
      assert pool[0] == FirstFree(pool, inUse).value;
    } else {
      var rest := pool[1..];
      FirstFreeIsFirst(rest, inUse);
      var i :| 0 <= i < |rest| && rest[i] == FirstFree(rest, inUse).value
               && forall j :: 0 <= j < i ==> rest[j] in inUse;
      forall j | 0 <= j < i + 1 ensures pool[j] in inUse { if j > 0 { assert pool[j] == rest[j - 1]; } }
      assert pool[i + 1] == FirstFree(pool, inUse).value;
    }
  }

  function InitialPool(configured: seq<Key>, primary: Key): seq<Key> {
    if configured == [] then [primary] else configured
  }

  function Start(pool: seq<Key>, primary: Key): Manager { Manager(pool, primary, {}, map[]) }

  /** One step; a step that is not enabled changes nothing. */
  function Next(m: Manager, s: Step): Manager {
    match s
    case Enter(c) => if c in m.callers then m else m.(callers := m.callers[c := Waiting])
    case Scan(c) =>
      if c in m.callers && m.callers[c].Waiting? then
        match FirstFree(m.pool, m.inUse)
        case None => m
        case Some(k) => m.(inUse := m.inUse + {k}, callers := m.callers[c := Leasing(k, true)])
      else m
    case TimeOut(c) =>
      if c in m.callers && m.callers[c].Waiting?
      then m.(callers := m.callers[c := Leasing(m.primary, false)]) else m
    case Release(c) =>
      if c in m.callers && m.callers[c].Leasing?
      then m.(inUse := m.inUse - {m.callers[c].key}, callers := m.callers[c := Finished]) else m
  }

  function Exec(m: Manager, steps: seq<Step>): Manager {
    if steps == [] then m else Next(Exec(m, steps[..|steps| - 1]), steps[|steps| - 1])
  }

  predicate Holds(m: Manager, c: Caller, k: Key) {
    c in m.callers && m.callers[c].Leasing? && m.callers[c].key == k
  }

  /** Keys of the pool that some caller holds right now. */
  function LeasedPoolKeys(m: Manager): set<Key> {
    set c | c in m.callers && m.callers[c].Leasing? && m.callers[c].key in m.pool :: m.callers[c].key
  }

  ghost predicate Exclusive(m: Manager) {
    && m.inUse == LeasedPoolKeys(m)
    && forall b, c, k :: k in m.pool && Holds(m, b, k) && Holds(m, c, k) ==> b == c
  }

  // ---------- Safety when the primary key is not in the pool ----------

  lemma LeasedMember(m: Manager, k: Key)
    ensures k in LeasedPoolKeys(m) <==> k in m.pool && exists c :: Holds(m, c, k)
  {
    if k in LeasedPoolKeys(m) {
      var c :| c in m.callers && m.callers[c].Leasing? && m.callers[c].key in m.pool && m.callers[c].key == k;
      assert Holds(m, c, k);
    }
  }

  /** A caller's lease changes only in that caller's own steps. */
  lemma OthersHold(m: Manager, s: Step, d: Caller, k: Key)
    requires d != s.c
    ensures Holds(Next(m, s), d, k) == Holds(m, d, k)
  {
  }

  lemma StepKeepsExclusive(m: Manager, s: Step)
    requires Exclusive(m) && m.primary !in m.pool
    ensures Exclusive(Next(m, s))
  {
    var n, c := Next(m, s), s.c;
    forall k | k in n.inUse
      ensures k in LeasedPoolKeys(n)
    {
      LeasedMember(m, k);
      LeasedMember(n, k);
      if k in m.inUse {
        var d :| Holds(m, d, k);
        if d != c { OthersHold(m, s, d, k); }
        assert Holds(n, d, k);
      } else {
        assert Holds(n, c, k);
      }
    }
    forall k | k in LeasedPoolKeys(n)
      ensures k in n.inUse
    {
      LeasedMember(m, k);
      LeasedMember(n, k);
      var d :| Holds(n, d, k);
      if d != c { OthersHold(m, s, d, k); }
      assert Holds(m, c, k) && Holds(m, d, k) ==> d == c;
    }
    forall b, d, k | k in n.pool && Holds(n, b, k) && Holds(n, d, k)
      ensures b == d
    {
      LeasedMember(m, k);
      if b != c { OthersHold(m, s, b, k); }
      if d != c { OthersHold(m, s, d, k); }
    }
  }

  /** In every run, the in-use set is exactly the leased pool keys and no two callers share one. */
  lemma {:induction false} RunIsExclusive(pool: seq<Key>, primary: Key, steps: seq<Step>)
    requires primary !in pool
    ensures Exclusive(Exec(Start(pool, primary), steps))
    ensures Exec(Start(pool, primary), steps).pool == pool
    ensures Exec(Start(pool, primary), steps).primary == primary
  {
    if steps != [] {
      RunIsExclusive(pool, primary, steps[..|steps| - 1]);
      StepKeepsExclusive(Exec(Start(pool, primary), steps[..|steps| - 1]), steps[|steps| - 1]);
    }
  }

  /** Nothing stays leased once every caller has finished, however each of them ended. */
  lemma FinishedRunLeavesNothingInUse(pool: seq<Key>, primary: Key, steps: seq<Step>)
    requires primary !in pool
    requires var m := Exec(Start(pool, primary), steps);
      forall c :: c in m.callers ==> m.callers[c].Finished?
    ensures Exec(Start(pool, primary), steps).inUse == {}
  {
    RunIsExclusive(pool, primary, steps);
  }

  // ---------- And only then ----------

  lemma {:induction false} ExecConcat(m: Manager, a: seq<Step>, b: seq<Step>)
    ensures Exec(m, a + b) == Exec(Exec(m, a), b)
  {
    if b == [] {
      assert a + b == a;
    } else {
      assert (a + b)[..|a + b| - 1] == a + b[..|b| - 1];
      ExecConcat(m, a, b[..|b| - 1]);
    }
  }

  lemma ExecTwo(m: Manager, a: Step, b: Step)
    ensures Exec(m, [a, b]) == Next(Next(m, a), b)
  {
    assert [a, b][..1] == [a] && [a][..0] == [];
    assert Exec(m, [a]) == Next(m, a);
  }

  /** Enough new callers, each scanning once, bring the primary key into a pool lease. */
  lemma {:induction false} LeasePrimary(m: Manager, next: Caller) returns (steps: seq<Step>, holder: Caller)
    requires m.primary in m.pool && m.primary !in m.inUse
    requires forall c :: c in m.callers ==> c < next
    ensures var n := Exec(m, steps);
      && n.pool == m.pool && n.primary == m.primary
      && Holds(n, holder, m.primary)
      && forall c :: c in n.callers ==> c <= holder
    decreases (set k | k in m.pool) - m.inUse
  {
    var a, b := Enter(next), Scan(next);
    var n := Next(Next(m, a), b);
    ExecTwo(m, a, b);
    var k := FirstFree(m.pool, m.inUse).value;
    assert n == m.(inUse := m.inUse + {k}, callers := m.callers[next := Waiting][next := Leasing(k, true)]);
    if k == m.primary {
      steps, holder := [a, b], next;
    } else {
      assert k in (set j | j in m.pool) - m.inUse;
      assert (set j | j in n.pool) - n.inUse < (set j | j in m.pool) - m.inUse;
      var rest;
      rest, holder := LeasePrimary(n, next + 1);
      steps := [a, b] + rest;
      ExecConcat(m, [a, b], rest);
    }
  }

  /** With the primary key in the pool, a waiting caller that times out shares the key with its holder. */
  lemma PrimaryInPoolIsShared(pool: seq<Key>, primary: Key) returns (steps: seq<Step>, first: Caller, second: Caller)
    requires primary in pool
    ensures first != second
    ensures Holds(Exec(Start(pool, primary), steps), first, primary)
    ensures Holds(Exec(Start(pool, primary), steps), second, primary)
    ensures Exec(Start(pool, primary), steps).pool == pool
  {
    var m := Start(pool, primary);
    var fill;
    fill, first := LeasePrimary(m, 0);
    second := first + 1;
    var full := Exec(m, fill);
    var a, b := Enter(second), TimeOut(second);
    steps := fill + [a, b];
    ExecConcat(m, fill, [a, b]);
    ExecTwo(full, a, b);
    assert Next(Next(full, a), b).callers == full.callers[second := Waiting][second := Leasing(primary, false)];
  }

  /** Leases are exclusive in all runs exactly when the primary key is not one of the pool's keys. */
  lemma ExclusiveIffPrimaryOutsidePool(pool: seq<Key>, primary: Key)
    ensures (forall steps :: Exclusive(Exec(Start(pool, primary), steps))) <==> primary !in pool
  {
    if primary !in pool {
      forall steps ensures Exclusive(Exec(Start(pool, primary), steps)) {
        RunIsExclusive(pool, primary, steps);
      }
    } else {
      var steps, first, second := PrimaryInPoolIsShared(pool, primary);
      assert !Exclusive(Exec(Start(pool, primary), steps));
    }
  }

  /** Without configured channels the pool is the primary key alone, so leases are not exclusive. */
  lemma DefaultPoolIsShared(configured: seq<Key>, primary: Key)
    ensures (forall steps :: Exclusive(Exec(Start(InitialPool(configured, primary), primary), steps)))
       <==> configured != [] && primary !in configured
  {
    ExclusiveIffPrimaryOutsidePool(InitialPool(configured, primary), primary);
  }

  // ---------- The object ----------

  class SequenceManager {
    var channelPool: seq<Key>
    var inUseChannels: set<Key>
    const primaryWorker: Key

    /** `configured` are the channel secrets that parsed; with none, the primary key is the pool. */
    constructor (configured: seq<Key>, primary: Key)
      ensures channelPool == InitialPool(configured, primary)
      ensures inUseChannels == {} && primaryWorker == primary
    {
      primaryWorker := primary;
      inUseChannels := {};
      channelPool := configured;
      new;
      if |channelPool| == 0 {
        channelPool := channelPool + [primary];
      }
    }

    ghost function View(callers: map<Caller, Phase>): Manager
      reads this
    {
      Manager(channelPool, primaryWorker, inUseChannels, callers)
    }

    /** One pass over the pool: takes the first key not in use. */
    method TryAcquire(ghost callers: map<Caller, Phase>, ghost c: Caller) returns (lease: Option<Key>)
      requires c in callers && callers[c].Waiting?
      modifies this`inUseChannels
      ensures View(if lease.Some? then callers[c := Leasing(lease.value, true)] else callers)
           == Next(old(View(callers)), Scan(c))
    {
      for i := 0 to |channelPool|
        invariant inUseChannels == old(inUseChannels)
        invariant FirstFree(channelPool, inUseChannels) == FirstFree(channelPool[i..], inUseChannels)
      {
        var pub := channelPool[i];
        if pub !in inUseChannels {
          inUseChannels := inUseChannels + {pub};
          return Some(pub);
        }
        assert channelPool[i..][1..] == channelPool[i + 1..];
      }
      return None;
    }

    /** The key is free for the next scan and every other lease keeps its mark; exclusive leases stay exclusive. */
    method ReleaseChannelAccount(key: Key, ghost callers: map<Caller, Phase>, ghost c: Caller)
      requires c in callers && callers[c].Leasing? && callers[c].key == key
      modifies this`inUseChannels
      ensures View(callers[c := Finished]) == Next(old(View(callers)), Release(c))
      ensures key in channelPool ==> FirstFree(channelPool, inUseChannels).Some?
      ensures forall d, k :: d != c && Holds(old(View(callers)), d, k) && k != key ==>
        (k in inUseChannels <==> k in old(inUseChannels))
      ensures old(Exclusive(View(callers))) && primaryWorker !in channelPool ==>
        Exclusive(View(callers[c := Finished])) && key !in LeasedPoolKeys(View(callers[c := Finished]))
    {
      if Exclusive(View(callers)) && primaryWorker !in channelPool {
        StepKeepsExclusive(View(callers), Release(c));
      }
      inUseChannels := inUseChannels - {key};
    }
  }
}
