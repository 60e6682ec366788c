/** The Redis lock around one Stellar account's sequence number: SET NX with a
    time to live, and a compare-and-delete release. */
module AccountLock {

  type Account = nat
  /** A call of withAccountLock. Its random lock value is its own, so a lock is described by its owner. */
  type Caller = nat

  /** Trying to set the lock, inside the protected function, past it but not released, or done. */
  datatype Phase =
    | Trying(account: Account)
    | Inside(account: Account, acquired: bool)
    | Leaving(account: Account, acquired: bool)
    | Done(account: Account)

  datatype World = World(locks: map<Account, Caller>, callers: map<Caller, Phase>)

  datatype Step =
    | Enter(c: Caller, account: Account)
    | TrySet(c: Caller)                       // SET key value PX ttl NX
    | SetErrs(c: Caller, applied: bool)       // the command errs; the server may have applied it
    | GiveUp(c: Caller)                       // the wait is over, or there is no Redis client
    | Leave(c: Caller)                        // the protected function returned or threw
    | Unlock(c: Caller, reached: bool)        // compare-and-delete, possibly lost on the way
    | Expire(account: Account)                // time to live ran out

  const START := World(map[], map[])

  /** SET NX: succeeds only on a free key. */
  function SetNx(locks: map<Account, Caller>, a: Account, c: Caller): map<Account, Caller> {
    if a in locks then locks else locks[a := c]
  }

  /** The release script: deletes the key only while it holds the caller's own value. */
  function CompareAndDelete(locks: map<Account, Caller>, a: Account, c: Caller): map<Account, Caller> {
    if a in locks && locks[a] == c then locks - {a} else locks
  }

  /** One step; a step that is not enabled changes nothing. */
  function Next(w: World, s: Step): World {
    match s
    case Enter(c, a) => if c in w.callers then w else w.(callers := w.callers[c := Trying(a)])
    case TrySet(c) =>
      if c in w.callers && w.callers[c].Trying? && w.callers[c].account !in w.locks then
        var a := w.callers[c].account;
        World(SetNx(w.locks, a, c), w.callers[c := Inside(a, true)])
      else w
    case SetErrs(c, applied) =>
      if c in w.callers && w.callers[c].Trying? then
        var a := w.callers[c].account;
        World(if applied then SetNx(w.locks, a, c) else w.locks, w.callers[c := Inside(a, false)])
      else w
    case GiveUp(c) =>
      if c in w.callers && w.callers[c].Trying?
      then w.(callers := w.callers[c := Inside(w.callers[c].account, false)]) else w
    case Leave(c) =>
      if c in w.callers && w.callers[c].Inside?
      then w.(callers := w.callers[c := Leaving(w.callers[c].account, w.callers[c].acquired)]) else w
    case Unlock(c, reached) =>
      if c in w.callers && w.callers[c].Leaving? then
        var a := w.callers[c].account;
        World(if w.callers[c].acquired && reached then CompareAndDelete(w.locks, a, c) else w.locks,
              w.callers[c := Done(a)])
      else w
    case Expire(a) => w.(locks := w.locks - {a})
  }

  function Exec(w: World, steps: seq<Step>): World {
    if steps == [] then w else Next(Exec(w, steps[..|steps| - 1]), steps[|steps| - 1])
  }

  predicate IsInside(w: World, c: Caller, a: Account) {
    c in w.callers && w.callers[c].Inside? && w.callers[c].account == a
  }

  // ---------- Ownership ----------

  /** Every lock belongs to a caller for that account that has stopped trying. */
  ghost predicate Owned(w: World) {
    forall a :: a in w.locks ==>
      var c := w.locks[a];
      c in w.callers && !w.callers[c].Trying? && w.callers[c].account == a
  }

  lemma StepKeepsOwned(w: World, s: Step)
    requires Owned(w)
    ensures Owned(Next(w, s))
  {
    forall a | a in Next(w, s).locks
      ensures var c := Next(w, s).locks[a];
        c in Next(w, s).callers && !Next(w, s).callers[c].Trying? && Next(w, s).callers[c].account == a
    {
    }
  }

  lemma {:induction false} RunIsOwned(steps: seq<Step>)
    ensures Owned(Exec(START, steps))
  {
    if steps != [] {
      RunIsOwned(steps[..|steps| - 1]);
      StepKeepsOwned(Exec(START, steps[..|steps| - 1]), steps[|steps| - 1]);
    }
  }

  predicate Ends(s: Step, a: Account, c: Caller) {
    s == Expire(a) || (s.Unlock? && s.c == c)
  }

  /** In every run, a lock stays with the caller that set it until it expires or that caller releases it:
      no step of any other caller removes or replaces it, whatever expired before. */
  lemma {:induction false} LockStaysWithItsSetter(steps: seq<Step>, i: nat, a: Account)
    requires i <= |steps|
    requires a in Exec(START, steps[..i]).locks
    requires forall j :: i <= j < |steps| ==> !Ends(steps[j], a, Exec(START, steps[..i]).locks[a])
    ensures a in Exec(START, steps).locks
    ensures Exec(START, steps).locks[a] == Exec(START, steps[..i]).locks[a]
    decreases |steps|
  {
    if i == |steps| {
      assert steps[..i] == steps;
    } else {
      var front := steps[..|steps| - 1];
      assert front[..i] == steps[..i];
      forall j | i <= j < |front| ensures !Ends(front[j], a, Exec(START, front[..i]).locks[a]) {
        assert front[j] == steps[j];
      }
      LockStaysWithItsSetter(front, i, a);
    }
  }

  /** A caller's release removes at most its own lock, and only when it acquired one. */
  lemma ReleaseSparesOthers(steps: seq<Step>, c: Caller, reached: bool, a: Account)
    requires a in Exec(START, steps).locks && a !in Next(Exec(START, steps), Unlock(c, reached)).locks
    ensures Exec(START, steps).locks[a] == c
    ensures c in Exec(START, steps).callers && Exec(START, steps).callers[c] == Leaving(a, true)
  {
    RunIsOwned(steps);
  }

  // ---------- Taking and giving back ----------

  /** A caller gets in with the lock exactly by its own SET, or without it when it gives up or the SET errs. */
  lemma EntersIff(w: World, s: Step, c: Caller, a: Account)
    ensures !IsInside(w, c, a) && IsInside(Next(w, s), c, a)
       <==> && c in w.callers && w.callers[c] == Trying(a)
            && ((s == TrySet(c) && a !in w.locks) || s == GiveUp(c) || (s.SetErrs? && s.c == c))
  {
  }

  /** A free lock becomes a waiting caller's own exactly by its SET, also by one whose answer is an error. */
  lemma LockTakenIff(w: World, s: Step, c: Caller, a: Account)
    ensures (a !in w.locks || w.locks[a] != c) && a in Next(w, s).locks && Next(w, s).locks[a] == c
       <==> && a !in w.locks && c in w.callers && w.callers[c] == Trying(a)
            && s in {TrySet(c), SetErrs(c, true)}
  {
  }

  /** A lock goes exactly when its time is over or when the release of the caller that acquired it arrives. */
  lemma LockFreedIff(w: World, s: Step, a: Account)
    requires Owned(w)
    ensures a in w.locks && a !in Next(w, s).locks
       <==> && a in w.locks
            && (s == Expire(a) || (s == Unlock(w.locks[a], true) && w.callers[w.locks[a]] == Leaving(a, true)))
  {
  }

  /** A SET on a free key takes the lock for its caller. */
  lemma FreeLockIsTaken(w: World, c: Caller, a: Account)
    requires c in w.callers && w.callers[c] == Trying(a) && a !in w.locks
    ensures Next(w, TrySet(c)).locks == w.locks[a := c] && Next(w, TrySet(c)).callers[c] == Inside(a, true)
  {
  }

  /** A release that reaches Redis frees the caller's own lock and no other, and the next SET gets it. */
  lemma ReleaseFreesOwn(w: World, c: Caller, a: Account, d: Caller)
    requires c in w.callers && w.callers[c] == Leaving(a, true) && a in w.locks && w.locks[a] == c
    ensures var v := Next(w, Unlock(c, true));
      && a !in v.locks && (forall b :: b != a ==> (b in v.locks <==> b in w.locks))
      && (forall b :: b != a && b in w.locks ==> v.locks[b] == w.locks[b])
      && (d in v.callers && v.callers[d] == Trying(a) ==> IsInside(Next(v, TrySet(d)), d, a))
  {
  }

  /** Every release reached Redis, and no SET that erred was applied. */
  predicate Delivered(steps: seq<Step>) {
    forall i :: 0 <= i < |steps| ==>
      (steps[i].Unlock? ==> steps[i].reached) && (steps[i].SetErrs? ==> !steps[i].applied)
  }

  /** Each lock in place belongs to a caller that took it and has not given it back. */
  ghost predicate HeldByLive(w: World) {
    forall a :: a in w.locks ==>
      && w.locks[a] in w.callers
      && (w.callers[w.locks[a]] == Inside(a, true) || w.callers[w.locks[a]] == Leaving(a, true))
  }

  lemma StepHeldByLive(w: World, s: Step)
    requires HeldByLive(w) && Delivered([s])
    ensures HeldByLive(Next(w, s))
  {
    assert [s][0] == s;
  }

  /** In every run whose messages get through, a lock in place belongs to a caller that is still inside or leaving:
      no lock outlives the call that took it. */
  lemma {:induction false} NoLockOutlivesItsCall(steps: seq<Step>)
    requires Delivered(steps)
    ensures HeldByLive(Exec(START, steps))
  {
    if steps != [] {
      var front, s := steps[..|steps| - 1], steps[|steps| - 1];
      assert forall i :: 0 <= i < |front| ==> front[i] == steps[i];
      NoLockOutlivesItsCall(front);
      StepHeldByLive(Exec(START, front), s);
    }
  }

  // ---------- Mutual exclusion ----------

  /** The step expires a lock whose owner is inside, or lets a caller in without the lock. */
  predicate Breaks(w: World, s: Step) {
    match s
    case Expire(a) => a in w.locks && IsInside(w, w.locks[a], a)
    case GiveUp(c) => c in w.callers && w.callers[c].Trying?
    case SetErrs(c, applied) =>
      c in w.callers && w.callers[c].Trying? && !(applied && w.callers[c].account !in w.locks)
    case _ => false
  }

  /** Whoever is inside holds the lock. */
  ghost predicate Guarded(w: World) {
    forall c, a :: IsInside(w, c, a) ==> a in w.locks && w.locks[a] == c
  }

  /** A step keeps everyone inside protected exactly when it does not break the discipline. */
  lemma StepGuardedIff(w: World, s: Step)
    requires Guarded(w) && Owned(w)
    ensures Guarded(Next(w, s)) <==> !Breaks(w, s)
  {
    var v := Next(w, s);
    if Breaks(w, s) {
      if s.Expire? {
        assert IsInside(v, w.locks[s.account], s.account);
      } else {
        var a := w.callers[s.c].account;
        assert IsInside(v, s.c, a);
        assert a in w.locks ==> w.locks[a] != s.c;
      }
    } else {
      forall c, a | IsInside(v, c, a)
        ensures a in v.locks && v.locks[a] == c
      {
        if IsInside(w, c, a) {
          assert a in w.locks && w.locks[a] == c;
        }
      }
    }
  }

  /** Everyone inside is protected after every step of the run. */
  ghost predicate GuardedThroughout(steps: seq<Step>) {
    (steps == [] || GuardedThroughout(steps[..|steps| - 1])) && Guarded(Exec(START, steps))
  }

  /** No step of the run breaks the discipline. */
  predicate Unbroken(steps: seq<Step>) {
    steps == [] ||
    (Unbroken(steps[..|steps| - 1]) && !Breaks(Exec(START, steps[..|steps| - 1]), steps[|steps| - 1]))
  }

  /** In every run: everyone inside is protected at every moment exactly when no step breaks the discipline. */
  lemma {:induction false} RunGuardedIff(steps: seq<Step>)
    ensures GuardedThroughout(steps) <==> Unbroken(steps)
  {
    if steps != [] {
      var front := steps[..|steps| - 1];
      RunGuardedIff(front);
      RunIsOwned(front);
      if GuardedThroughout(front) {
        StepGuardedIff(Exec(START, front), steps[|steps| - 1]);
      }
    }
  }

  /** If no lock expires under its owner and every entrant acquired it, at most one caller is inside per account. */
  lemma MutualExclusion(steps: seq<Step>, b: Caller, c: Caller, a: Account)
    requires Unbroken(steps)
    requires IsInside(Exec(START, steps), b, a) && IsInside(Exec(START, steps), c, a)
    ensures b == c
  {
    RunGuardedIff(steps);
  }

  // ---------- Which runs exclude ----------

  /** What may happen: locks may expire under their owner; a caller may stop waiting and run without the lock, as it
      does when there is no Redis client; the SET command may err. */
  datatype Policy = Policy(expiry: bool, givingUp: bool, errors: bool)

  predicate Permits(policy: Policy, w: World, s: Step) {
    Breaks(w, s) ==> if s.Expire? then policy.expiry else if s.GiveUp? then policy.givingUp else policy.errors
  }

  predicate Runs(policy: Policy, steps: seq<Step>) {
    steps == [] ||
    (Runs(policy, steps[..|steps| - 1]) && Permits(policy, Exec(START, steps[..|steps| - 1]), steps[|steps| - 1]))
  }

  ghost predicate Reaches(policy: Policy, w: World) { exists steps :: Runs(policy, steps) && w == Exec(START, steps) }

  lemma ReachesNext(policy: Policy, w: World, s: Step)
    requires Reaches(policy, w) && Permits(policy, w, s)
    ensures Reaches(policy, Next(w, s))
  {
    var steps :| Runs(policy, steps) && w == Exec(START, steps);
    assert (steps + [s])[..|steps|] == steps;
    assert Exec(START, steps + [s]) == Next(w, s) && Runs(policy, steps + [s]);
  }

  ghost predicate AtMostOneInside(w: World) {
    forall b, c, a :: IsInside(w, b, a) && IsInside(w, c, a) ==> b == c
  }

  /** A caller inside with its lock. */
  lemma OneInside(policy: Policy, a: Account, b: Caller) returns (w: World)
    ensures Reaches(policy, w) && w == World(map[a := b], map[b := Inside(a, true)])
  {
    assert Runs(policy, []) && Exec(START, []) == START;
    ReachesNext(policy, START, Enter(b, a));
    var v := Next(START, Enter(b, a));
    assert v == World(map[], map[b := Trying(a)]);
    ReachesNext(policy, v, TrySet(b));
    w := Next(v, TrySet(b));
  }

  lemma SecondWaits(policy: Policy, w: World, a: Account, c: Caller)
    requires Reaches(policy, w) && c !in w.callers
    ensures Reaches(policy, w.(callers := w.callers[c := Trying(a)]))
  {
    ReachesNext(policy, w, Enter(c, a));
  }

  /** An expiry under the owner lets a second caller in. */
  lemma ExpiryBreaksExclusion(policy: Policy, a: Account, b: Caller, c: Caller) returns (w: World)
    requires policy.expiry && b != c
    ensures Reaches(policy, w) && IsInside(w, b, a) && IsInside(w, c, a)
  {
    var v := OneInside(policy, a, b);
    ReachesNext(policy, v, Expire(a));
    v := Next(v, Expire(a));
    SecondWaits(policy, v, a, c);
    v := v.(callers := v.callers[c := Trying(a)]);
    ReachesNext(policy, v, TrySet(c));
    w := Next(v, TrySet(c));
  }

  /** A caller that stops waiting, or whose command errs, runs anyway, next to the owner. */
  lemma EnteringWithoutLockBreaksExclusion(policy: Policy, a: Account, b: Caller, c: Caller) returns (w: World)
    requires (policy.givingUp || policy.errors) && b != c
    ensures Reaches(policy, w) && IsInside(w, b, a) && IsInside(w, c, a)
  {
    var v := OneInside(policy, a, b);
    SecondWaits(policy, v, a, c);
    v := v.(callers := v.callers[c := Trying(a)]);
    var s := if policy.givingUp then GiveUp(c) else SetErrs(c, false);
    ReachesNext(policy, v, s);
    w := Next(v, s);
  }

  lemma {:induction false} StrictRunIsUnbroken(policy: Policy, steps: seq<Step>)
    requires !policy.expiry && !policy.givingUp && !policy.errors && Runs(policy, steps)
    ensures Unbroken(steps)
  {
    if steps != [] { StrictRunIsUnbroken(policy, steps[..|steps| - 1]); }
  }

  /** At most one caller is inside per account in all runs exactly when no lock expires under its owner, no caller
      stops waiting, and no SET command errs. */
  lemma ExclusionIff(policy: Policy)
    ensures (forall w :: Reaches(policy, w) ==> AtMostOneInside(w))
       <==> !policy.expiry && !policy.givingUp && !policy.errors
  {
    if !policy.expiry && !policy.givingUp && !policy.errors {
      forall w | Reaches(policy, w) ensures AtMostOneInside(w) {
        var steps :| Runs(policy, steps) && w == Exec(START, steps);
        StrictRunIsUnbroken(policy, steps);
        RunGuardedIff(steps);
      }
    } else {
      var w;
      if policy.expiry {
        w := ExpiryBreaksExclusion(policy, 0, 0, 1);
      } else {
        w := EnteringWithoutLockBreaksExclusion(policy, 0, 0, 1);
      }
      assert Reaches(policy, w) && !AtMostOneInside(w);
    }
  }
}
