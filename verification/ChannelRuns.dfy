/** Channel leases and the account lock together: which callbacks of withChannelAccount may run at the same time. */
module ChannelRuns {
  import Pool = ChannelPool
  import Lock = AccountLock

  type Key = Pool.Key
  type Caller = Pool.Caller

  // ---------- Holders of one key ----------

  /** At most one caller holds the key, and while one does the key is marked in use. */
  ghost predicate HeldOnce(m: Pool.Manager, k: Key) {
    && (forall c :: Pool.Holds(m, c, k) ==> k in m.inUse)
    && (forall b, c :: Pool.Holds(m, b, k) && Pool.Holds(m, c, k) ==> b == c)
  }

  lemma StepHeldOnce(m: Pool.Manager, s: Pool.Step, k: Key)
    requires HeldOnce(m, k) && k != m.primary
    ensures HeldOnce(Pool.Next(m, s), k)
  {
    var n := Pool.Next(m, s);
    forall c | c != s.c ensures Pool.Holds(n, c, k) == Pool.Holds(m, c, k) { Pool.OthersHold(m, s, c, k); }
    forall c | Pool.Holds(n, c, k) ensures k in n.inUse {
      if c != s.c && s.Release? && Pool.Holds(m, s.c, k) {
        assert false;
      }
    }
  }

  lemma {:induction false} RunHeldOnce(pool: seq<Key>, primary: Key, steps: seq<Pool.Step>, k: Key)
    requires k != primary
    ensures HeldOnce(Pool.Exec(Pool.Start(pool, primary), steps), k)
    ensures Pool.Exec(Pool.Start(pool, primary), steps).primary == primary
  {
    if steps != [] {
      RunHeldOnce(pool, primary, steps[..|steps| - 1], k);
      StepHeldOnce(Pool.Exec(Pool.Start(pool, primary), steps[..|steps| - 1]), steps[|steps| - 1], k);
    }
  }

  // ---------- Calls of withChannelAccount ----------

  /** A call leases a key; with at most one key in the pool it runs its callback under the lock of that key's
      account. */
  datatype World = World(leases: Pool.Manager, locks: Lock.World)

  datatype Step = Lease(lease: Pool.Step) | Locking(lock: Lock.Step)

  function Start(pool: seq<Key>, primary: Key): World { World(Pool.Start(pool, primary), Lock.START) }

  predicate Locks(w: World) { |w.leases.pool| <= 1 }

  /** The lock is asked for by the holder of a lease, for its key; the lease is released once the lock call is over. */
  predicate Enabled(w: World, s: Step) {
    match s
    case Locking(Enter(c, a)) => Locks(w) && Pool.Holds(w.leases, c, a)
    case Lease(Release(c)) => Locks(w) ==> c in w.locks.callers && w.locks.callers[c].Done?
    case _ => true
  }

  function Next(w: World, s: Step): World {
    if !Enabled(w, s) then w
    else
      match s
      case Lease(t) => w.(leases := Pool.Next(w.leases, t))
      case Locking(t) => w.(locks := Lock.Next(w.locks, t))
  }

  function Exec(w: World, steps: seq<Step>): World {
    if steps == [] then w else Next(Exec(w, steps[..|steps| - 1]), steps[|steps| - 1])
  }

  /** The callback of call c is running with key k. */
  predicate Runs(w: World, c: Caller, k: Key) {
    Pool.Holds(w.leases, c, k) && (Locks(w) ==> Lock.IsInside(w.locks, c, k))
  }

  ghost predicate OneCallback(w: World, k: Key) { forall b, c :: Runs(w, b, k) && Runs(w, c, k) ==> b == c }

  // ---------- The two parts of a run ----------

  function LeaseSteps(w: World, steps: seq<Step>): seq<Pool.Step> {
    if steps == [] then []
    else
      var front, s := steps[..|steps| - 1], steps[|steps| - 1];
      if s.Lease? && Enabled(Exec(w, front), s) then LeaseSteps(w, front) + [s.lease] else LeaseSteps(w, front)
  }

  function LockSteps(w: World, steps: seq<Step>): seq<Lock.Step> {
    if steps == [] then []
    else
      var front, s := steps[..|steps| - 1], steps[|steps| - 1];
      if s.Locking? && Enabled(Exec(w, front), s) then LockSteps(w, front) + [s.lock] else LockSteps(w, front)
  }

  /** Leases and locks each go through a run of their own. */
  lemma {:induction false} PartsOfRun(w: World, steps: seq<Step>)
    ensures Exec(w, steps).leases == Pool.Exec(w.leases, LeaseSteps(w, steps))
    ensures Exec(w, steps).locks == Lock.Exec(w.locks, LockSteps(w, steps))
    ensures Exec(w, steps).leases.pool == w.leases.pool
  {
    if steps != [] {
      var front, s := steps[..|steps| - 1], steps[|steps| - 1];
      PartsOfRun(w, front);
      if Enabled(Exec(w, front), s) {
        if s.Lease? {
          assert LeaseSteps(w, steps)[..|LeaseSteps(w, front)|] == LeaseSteps(w, front);
        } else {
          assert LockSteps(w, steps)[..|LockSteps(w, front)|] == LockSteps(w, front);
        }
      }
    }
  }

  // ---------- One callback per key ----------

  /** No lock expires under its owner, and nobody enters without the lock. */
  predicate Undisturbed(pool: seq<Key>, primary: Key, steps: seq<Step>) {
    Lock.Unbroken(LockSteps(Start(pool, primary), steps))
  }

  lemma UndisturbedRunHasOneCallback(pool: seq<Key>, primary: Key, steps: seq<Step>, k: Key)
    requires Undisturbed(pool, primary, steps) && (|pool| <= 1 || k != primary)
    ensures OneCallback(Exec(Start(pool, primary), steps), k)
  {
    var start := Start(pool, primary);
    var w := Exec(start, steps);
    PartsOfRun(start, steps);
    if |pool| <= 1 {
      forall b, c | Runs(w, b, k) && Runs(w, c, k) ensures b == c {
        Lock.MutualExclusion(LockSteps(start, steps), b, c, k);
      }
    } else {
      RunHeldOnce(pool, primary, LeaseSteps(start, steps), k);
    }
  }

  /** With two keys or more, two callers that time out run with the primary key side by side, without any lock. */
  lemma TimedOutCallersShareThePrimary(pool: seq<Key>, primary: Key) returns (steps: seq<Step>)
    requires |pool| > 1
    ensures Undisturbed(pool, primary, steps) && !OneCallback(Exec(Start(pool, primary), steps), primary)
  {
    var a, b, c, d := Lease(Pool.Enter(0)), Lease(Pool.TimeOut(0)), Lease(Pool.Enter(1)), Lease(Pool.TimeOut(1));
    var w := Start(pool, primary);
    steps := [a, b, c, d];
    assert steps[..3] == [a, b, c] && [a, b, c][..2] == [a, b] && [a, b][..1] == [a] && [a][..0] == [];
    assert Exec(w, []) == w && LockSteps(w, []) == [];
    assert Exec(w, [a]) == Next(w, a) && LockSteps(w, [a]) == [];
    assert Exec(w, [a, b]) == Next(Next(w, a), b) && LockSteps(w, [a, b]) == [];
    assert Exec(w, [a, b, c]) == Next(Next(Next(w, a), b), c) && LockSteps(w, [a, b, c]) == [];
    var v := Exec(w, steps);
    assert v == Next(Next(Next(Next(w, a), b), c), d) && LockSteps(w, steps) == [];
    assert Runs(v, 0, primary) && Runs(v, 1, primary);
  }

  /** Whoever asks for a lock, holds it or gives it back has a lease of that lock's key. */
  ghost predicate LockedUnderLease(w: World) {
    forall c :: c in w.locks.callers && !w.locks.callers[c].Done? ==>
      Locks(w) && Pool.Holds(w.leases, c, w.locks.callers[c].account)
  }

  lemma StepLockedUnderLease(w: World, s: Step)
    requires LockedUnderLease(w)
    ensures LockedUnderLease(Next(w, s))
  {
    var n := Next(w, s);
    forall c | c in n.locks.callers && !n.locks.callers[c].Done?
      ensures Locks(n) && Pool.Holds(n.leases, c, n.locks.callers[c].account)
    {
      if c in w.locks.callers {
        assert !w.locks.callers[c].Done? && n.locks.callers[c].account == w.locks.callers[c].account;
        if s.Lease? && Enabled(w, s) && s.lease.c != c {
          Pool.OthersHold(w.leases, s.lease, c, w.locks.callers[c].account);
        }
      }
    }
  }

  /** In every run a call keeps its lease from before it asks for the lock until after it has given the lock back. */
  lemma {:induction false} LeaseOutlastsLock(pool: seq<Key>, primary: Key, steps: seq<Step>)
    ensures LockedUnderLease(Exec(Start(pool, primary), steps))
  {
    if steps != [] {
      LeaseOutlastsLock(pool, primary, steps[..|steps| - 1]);
      StepLockedUnderLease(Exec(Start(pool, primary), steps[..|steps| - 1]), steps[|steps| - 1]);
    }
  }

  /** With a single key a call does get to its callback: it leases the key, takes its lock and runs. */
  lemma SingleKeyIsServed(key: Key, primary: Key) returns (steps: seq<Step>)
    ensures Undisturbed([key], primary, steps) && Runs(Exec(Start([key], primary), steps), 0, key)
  {
    var a, b := Lease(Pool.Enter(0)), Lease(Pool.Scan(0));
    var c, d := Locking(Lock.Enter(0, key)), Locking(Lock.TrySet(0));
    var w := Start([key], primary);
    steps := [a, b, c, d];
    assert steps[..3] == [a, b, c] && [a, b, c][..2] == [a, b] && [a, b][..1] == [a] && [a][..0] == [];
    assert Exec(w, []) == w && LockSteps(w, []) == [];
    var w1 := Next(w, a);
    assert Exec(w, [a]) == w1 && LockSteps(w, [a]) == [];
    var w2 := Next(w1, b);
    assert Exec(w, [a, b]) == w2 && LockSteps(w, [a, b]) == [] && Pool.Holds(w2.leases, 0, key);
    var w3 := Next(w2, c);
    assert Exec(w, [a, b, c]) == w3 && LockSteps(w, [a, b, c]) == [Lock.Enter(0, key)];
    assert w3.locks.callers == map[0 := Lock.Trying(key)] && w3.locks.locks == map[];
    assert Exec(w, steps) == Next(w3, d) && LockSteps(w, steps) == [Lock.Enter(0, key), Lock.TrySet(0)];
    assert [Lock.Enter(0, key), Lock.TrySet(0)][..1] == [Lock.Enter(0, key)] && [Lock.Enter(0, key)][..0] == [];
  }

  /** In all undisturbed runs at most one callback runs with key k at a time, exactly when the pool has at most one
      key, so that callbacks take the lock, or k is not the primary key, which timeouts hand out to anyone. */
  lemma OneCallbackPerKeyIff(pool: seq<Key>, primary: Key, k: Key)
    ensures (forall steps :: Undisturbed(pool, primary, steps) ==> OneCallback(Exec(Start(pool, primary), steps), k))
       <==> |pool| <= 1 || k != primary
  {
    if |pool| <= 1 || k != primary {
      forall steps | Undisturbed(pool, primary, steps) ensures OneCallback(Exec(Start(pool, primary), steps), k) {
        UndisturbedRunHasOneCallback(pool, primary, steps, k);
      }
    } else {
      var steps := TimedOutCallersShareThePrimary(pool, primary);
    }
  }
}
